/** The SQL text the score procedures assemble, and what MySQL reads in it. */
module ScoreSql {
  import opened Decimal
  import opened StringTool
  import opened Text
  import opened Wrappers

  type Pairs = seq<(string, int)>

  // ---- Reading the fragments ----

  predicate IsIntLiteral(s: string) {
    var d := if s != "" && s[0] == '-' then s[1..] else s;
    d != "" && AllDigits(d)
  }

  predicate IsTinyInt(n: int) {
    -128 <= n <= 127
  }

  predicate IsMark(s: string) {
    IsIntLiteral(s) && IsTinyInt(Atoi(s))
  }

  function ParseMark(s: string): Option<int> {
    if IsMark(s) then Some(Atoi(s)) else None
  }

  function ParsePair(col: string, mark: string, subjects: set<string>): Option<(string, int)> {
    if col in subjects && ParseMark(mark).Some? then Some((col, ParseMark(mark).value)) else None
  }

  function ParseAssignment(item: string, subjects: set<string>): Option<(string, int)> {
    var k := Find(item, "=", 0);
    if k == -1 then None else ParsePair(item[..k], item[k + 1..], subjects)
  }

  function Cons(p: Option<(string, int)>, ps: Option<Pairs>): Option<Pairs> {
    if p.Some? && ps.Some? then Some([p.value] + ps.value) else None
  }

  function ParseItems(items: seq<string>, subjects: set<string>): Option<Pairs> {
    if items == [] then Some([])
    else Cons(ParseAssignment(items[0], subjects), ParseItems(items[1..], subjects))
  }

  /** The SET list of an UPDATE: assignments separated by commas, None if it is not one. */
  function ParseSet(text: string, subjects: set<string>): Option<Pairs> {
    ParseItems(FullSplit(text, ","), subjects)
  }

  function ParseLists(cols: seq<string>, marks: seq<string>, subjects: set<string>): Option<Pairs> {
    if cols == [] || marks == [] then (if cols == [] && marks == [] then Some([]) else None)
    else Cons(ParsePair(cols[0], marks[0], subjects), ParseLists(cols[1..], marks[1..], subjects))
  }

  predicate Distinct(v: seq<string>) {
    forall i, j :: 0 <= i < j < |v| ==> v[i] != v[j]
  }

  /** The column and value lists of an INSERT; a column must not be named twice. */
  function ParseInsert(names: string, marks: string, subjects: set<string>): Option<Pairs> {
    if Distinct(FullSplit(names, ",")) then
      ParseLists(FullSplit(names, ","), FullSplit(marks, ","), subjects)
    else None
  }

  // ---- The UPDATE text says the same as the INSERT lists ----

  predicate PlainName(s: string) {
    s != "" && ',' !in s && '=' !in s
  }

  predicate PlainNames(subjects: set<string>) {
    forall s :: s in subjects ==> PlainName(s)
  }

  lemma AssignmentWithEquals(col: string, mark: string)
    requires '=' in col
    ensures var item := col + "=" + mark;
            var k := Find(item, "=", 0);
            k != -1 && ParseMark(item[k + 1..]) == None
  {
    var item := col + "=" + mark;
    var j :| 0 <= j < |col| && col[j] == '=';
    assert MatchAt(item, "=", j) by {
      assert item[j..j + 1] == "=";
    }
    var k := Find(item, "=", 0);
    FindIsFirst(item, "=", 0);
    var rest := item[k + 1..];
    assert rest[|col| - k - 1] == '=';
    var d := if rest != "" && rest[0] == '-' then rest[1..] else rest;
    assert '=' in d by {
      assert d == rest || (rest[0] == '-' && d[|col| - k - 2] == '=');
    }
    assert !AllDigits(d);
  }

  lemma AssignmentParsesBack(col: string, mark: string, subjects: set<string>)
    requires PlainNames(subjects)
    ensures ParseAssignment(col + "=" + mark, subjects) == ParsePair(col, mark, subjects)
  {
    if '=' in col {
      AssignmentWithEquals(col, mark);
    } else {
      FirstMatchAfterAvoidingPiece(col, "=");
      FindInPrefix(col, mark, "=");
      var item := col + "=" + mark;
      assert item[..|col|] == col && item[|col| + 1..] == mark;
    }
  }

  lemma {:induction false} AssignmentsParseBack(cols: seq<string>, marks: seq<string>, subjects: set<string>)
    requires |cols| == |marks| && PlainNames(subjects)
    ensures ParseItems(Assignments(cols, marks), subjects) == ParseLists(cols, marks, subjects)
  {
    if cols != [] {
      AssignmentsParseBack(cols[1..], marks[1..], subjects);
      AssignmentParsesBack(cols[0], marks[0], subjects);
      assert Assignments(cols, marks)[1..] == Assignments(cols[1..], marks[1..]);
    }
  }

  lemma {:induction false} ParsedListsAreNonempty(cols: seq<string>, marks: seq<string>, subjects: set<string>)
    requires ParseLists(cols, marks, subjects).Some? && PlainNames(subjects)
    ensures |cols| == |marks|
    ensures forall i :: 0 <= i < |cols| ==> cols[i] != "" && marks[i] != ""
  {
    if cols != [] {
      ParsedListsAreNonempty(cols[1..], marks[1..], subjects);
      assert cols == [cols[0]] + cols[1..] && marks == [marks[0]] + marks[1..];
    }
  }

  lemma {:induction false} ListCoherence(cols: seq<string>, marks: seq<string>, subjects: set<string>)
    requires |cols| == |marks| > 0 && PlainNames(subjects)
    requires forall i :: 0 <= i < |cols| ==> ',' !in cols[i] && ',' !in marks[i]
    ensures var text := Join(Assignments(cols, marks), ",");
            && ParseSet(text, subjects) == ParseLists(cols, marks, subjects)
            && |text| == |Join(cols, ",")| + |Join(marks, ",")| + 1
  {
    var items := Assignments(cols, marks);
    AvoidingPiecesAreWellSeparated(items, ",");
    FullSplitOfJoin(items, ",");
    AssignmentsParseBack(cols, marks, subjects);
    AssignmentsLength(cols, marks);
  }

  lemma PiecesAvoidComma(s: string)
    ensures forall i :: 0 <= i < |Pieces(s, ",")| ==> ',' !in Pieces(s, ",")[i]
  {
    PiecesDropOne(s, ",");
    forall i | 0 <= i < |FullSplit(s, ",")| ensures ',' !in FullSplit(s, ",")[i] {
      PiecesAvoidSeparator(s, ',', i);
    }
  }

  /** What MySQL reads in the printed list: the pairs of the pieces, comma at the end or not. */
  lemma PrintedSetParses(names: string, marks: string, subjects: set<string>, text: string)
    requires PlainNames(subjects)
    requires UpdateSetText(Pieces(names, ","), Pieces(marks, ",")) == Some(text)
    ensures ParseSet(text, subjects)
            == if Pieces(names, ",") == [] then None
               else ParseLists(Pieces(names, ","), Pieces(marks, ","), subjects)
  {
    var cols, vals := Pieces(names, ","), Pieces(marks, ",");
    if |cols| == |vals| && cols != [] {
      PiecesAvoidComma(names);
      PiecesAvoidComma(marks);
      ListCoherence(cols, vals, subjects);
    } else {
      assert text == "" && Find("", ",", 0) == -1 && FullSplit("", ",") == [""];
      assert ParseItems([""], subjects) == None by {
        assert Find("", "=", 0) == -1;
      }
      UnequalListsFail(cols, vals, subjects);
    }
  }

  lemma {:induction false} UnequalListsFail(cols: seq<string>, marks: seq<string>, subjects: set<string>)
    ensures |cols| != |marks| ==> ParseLists(cols, marks, subjects) == None
  {
    if cols != [] && marks != [] {
      UnequalListsFail(cols[1..], marks[1..], subjects);
    }
  }

  predicate EndsInEmptyPiece(s: string) {
    var v := FullSplit(s, ",");
    v[|v| - 1] == ""
  }

  lemma AcceptedInsertHasNoEmptyPiece(names: string, marks: string, subjects: set<string>)
    requires PlainNames(subjects) && ParseInsert(names, marks, subjects).Some?
    ensures !EndsInEmptyPiece(names) && !EndsInEmptyPiece(marks)
  {
    ParsedListsAreNonempty(FullSplit(names, ","), FullSplit(marks, ","), subjects);
  }

  predicate ValidRows(cols: seq<string>, marks: seq<string>, subjects: set<string>) {
    && |cols| == |marks|
    && forall i :: 0 <= i < |cols| ==> cols[i] in subjects && IsMark(marks[i])
  }

  /** As many columns as marks, at least one, each column a subject and each mark a tinyint. */
  predicate ValidLists(cols: seq<string>, marks: seq<string>, subjects: set<string>) {
    cols != [] && ValidRows(cols, marks, subjects)
  }

  lemma ValidRowsCons(c: string, m: string, cols: seq<string>, marks: seq<string>, subjects: set<string>)
    ensures ValidRows([c] + cols, [m] + marks, subjects)
            <==> c in subjects && IsMark(m) && ValidRows(cols, marks, subjects)
  {
    var cs, ms := [c] + cols, [m] + marks;
    assert ValidRows(cs, ms, subjects) ==> cs[0] in subjects && IsMark(ms[0]);
    forall i | ValidRows(cs, ms, subjects) && 0 <= i < |cols| ensures cols[i] in subjects && IsMark(marks[i]) {
      assert cs[i + 1] in subjects && IsMark(ms[i + 1]);
    }
  }

  lemma {:induction false} ParsedListsAreValid(cols: seq<string>, marks: seq<string>, subjects: set<string>)
    ensures ParseLists(cols, marks, subjects).Some? <==> ValidRows(cols, marks, subjects)
  {
    if cols != [] && marks != [] {
      ParsedListsAreValid(cols[1..], marks[1..], subjects);
      ValidRowsCons(cols[0], marks[0], cols[1..], marks[1..], subjects);
      assert cols == [cols[0]] + cols[1..] && marks == [marks[0]] + marks[1..];
    }
  }

  /** The printed list is accepted as text exactly when its pieces are valid lists. */
  lemma PrintedSetAccepted(names: string, marks: string, subjects: set<string>, text: string)
    requires PlainNames(subjects)
    requires UpdateSetText(Pieces(names, ","), Pieces(marks, ",")) == Some(text)
    ensures ParseSet(text, subjects).Some?
            <==> ValidLists(Pieces(names, ","), Pieces(marks, ","), subjects)
  {
    PrintedSetParses(names, marks, subjects, text);
    if Pieces(names, ",") != [] {
      ParsedListsAreValid(Pieces(names, ","), Pieces(marks, ","), subjects);
    }
  }

  /** The two branches of the score upsert read the same pairs, or both nothing, exactly when valid
      pieces name no column twice and neither list ends in an empty piece: the printer drops that
      piece, and UPDATE lets a column be set twice, where INSERT fails. */
  lemma UpsertCoherence(names: string, marks: string, subjects: set<string>, text: string)
    requires PlainNames(subjects)
    requires UpdateSetText(Pieces(names, ","), Pieces(marks, ",")) == Some(text)
    ensures ParseSet(text, subjects) == ParseInsert(names, marks, subjects)
            <==> (ValidLists(Pieces(names, ","), Pieces(marks, ","), subjects) ==>
                    && Distinct(Pieces(names, ","))
                    && !EndsInEmptyPiece(names) && !EndsInEmptyPiece(marks))
  {
    PrintedSetParses(names, marks, subjects, text);
    PrintedSetAccepted(names, marks, subjects, text);
    PiecesDropOne(names, ",");
    PiecesDropOne(marks, ",");
    if ParseInsert(names, marks, subjects).Some? {
      AcceptedInsertHasNoEmptyPiece(names, marks, subjects);
    }
  }

  /** The separators of the two texts that the printed list does without. */
  function EmptyTails(names: string, marks: string): nat {
    (if EndsInEmptyPiece(names) then 1 else 0) + (if EndsInEmptyPiece(marks) then 1 else 0)
  }

  lemma PiecesLength(s: string)
    requires s != ""
    ensures |Join(Pieces(s, ","), ",")| + (if EndsInEmptyPiece(s) then 1 else 0) == |s|
  {
    SpliteReconstructs(s, ",");
  }

  /** The printed list is one character longer than the two lists, less their empty tails. */
  lemma PrintedSetLength(names: string, marks: string, text: string)
    requires Pieces(names, ",") != [] && |Pieces(names, ",")| == |Pieces(marks, ",")|
    requires UpdateSetText(Pieces(names, ","), Pieces(marks, ",")) == Some(text)
    ensures |text| + EmptyTails(names, marks) == |names| + |marks| + 1
  {
    PiecesLength(names);
    PiecesLength(marks);
    AssignmentsLength(Pieces(names, ","), Pieces(marks, ","));
  }

  lemma {:induction false} AssignmentsTotal(cols: seq<string>, marks: seq<string>)
    requires |cols| == |marks|
    ensures TotalLength(Assignments(cols, marks)) == TotalLength(cols) + TotalLength(marks) + |cols|
  {
    if cols != [] {
      AssignmentsTotal(cols[1..], marks[1..]);
      assert Assignments(cols, marks)[1..] == Assignments(cols[1..], marks[1..]);
    }
  }

  lemma AssignmentsLength(cols: seq<string>, marks: seq<string>)
    requires |cols| == |marks| > 0
    ensures |Join(Assignments(cols, marks), ",")| == |Join(cols, ",")| + |Join(marks, ",")| + 1
  {
    AssignmentsTotal(cols, marks);
    JoinLength(cols, ",");
    JoinLength(marks, ",");
    JoinLength(Assignments(cols, marks), ",");
  }

  // ---- What a list of pairs writes ----

  /** The pairs take effect from left to right. */
  function Assign(row: map<string, int>, ps: Pairs): map<string, int> {
    if ps == [] then row
    else Assign(row, ps[..|ps| - 1])[ps[|ps| - 1].0 := ps[|ps| - 1].1]
  }

  /** The mark the list gives to a subject. */
  function MarkFor(ps: Pairs, subject: string): Option<int> {
    if ps == [] then None
    else if ps[|ps| - 1].0 == subject then Some(ps[|ps| - 1].1)
    else MarkFor(ps[..|ps| - 1], subject)
  }

  predicate Names(ps: Pairs, subjects: set<string>) {
    forall i :: 0 <= i < |ps| ==> ps[i].0 in subjects
  }

  lemma {:induction false} AssignWrites(row: map<string, int>, ps: Pairs, subjects: set<string>)
    requires row.Keys == subjects && Names(ps, subjects)
    ensures Assign(row, ps).Keys == subjects
    ensures forall x :: x in subjects ==>
              Assign(row, ps)[x] == if MarkFor(ps, x).Some? then MarkFor(ps, x).value else row[x]
  {
    if ps != [] {
      AssignWrites(row, ps[..|ps| - 1], subjects);
    }
  }

  lemma {:induction false} ParsedItemsName(items: seq<string>, subjects: set<string>)
    requires ParseItems(items, subjects).Some?
    ensures Names(ParseItems(items, subjects).value, subjects)
  {
    if items != [] {
      ParsedItemsName(items[1..], subjects);
    }
  }

  lemma {:induction false} ParsedListsName(cols: seq<string>, marks: seq<string>, subjects: set<string>)
    requires ParseLists(cols, marks, subjects).Some?
    ensures Names(ParseLists(cols, marks, subjects).value, subjects)
  {
    if cols != [] && marks != [] {
      ParsedListsName(cols[1..], marks[1..], subjects);
    }
  }
}
