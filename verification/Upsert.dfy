/** The two branches of the score upsert compared: which lists each accepts, and when they agree. */
module Upsert {
  import opened ScoreSql
  import opened StringTool
  import opened StudentDb
  import opened Text
  import opened Wrappers

  /** The pairs a score INSERT writes, None when it is refused. */
  function InsertPairs(id: int, names: string, marks: string, subjects: set<string>, limit: nat): Option<Pairs> {
    if InsertScoreLength(names, id, marks) > limit then None else ParseInsert(names, marks, subjects)
  }

  /** The pairs a score UPDATE writes, None when it is refused. */
  function UpdatePairs(id: int, text: string, subjects: set<string>, limit: nat): Option<Pairs> {
    if UpdateScoreLength(text, id) > limit then None else ParseSet(text, subjects)
  }

  /** The branches write these pairs and nothing else; refused, they change nothing. */
  lemma BranchesWrite(s: State, id: int, names: string, marks: string, text: string, limit: nat)
    ensures var pairs := InsertPairs(id, names, marks, s.subjects, limit);
            var r := ScoreInserted(s, id, names, marks, limit);
            if pairs.Some? then r == Exec(s, InsertScore(id, pairs.value)) && r.err.None?
            else r.db == s && r.err.Some?
    ensures var pairs := UpdatePairs(id, text, s.subjects, limit);
            var r := ScoreUpdated(s, id, text, limit);
            if pairs.Some? then r == Exec(s, UpdateScore(id, pairs.value)) && r.err.None?
            else r.db == s && r.err.Some?
  {
  }

  /** An INSERT is accepted exactly for valid lists that repeat no column, end in no empty piece and
      fit with the rest of the text. */
  lemma InsertAccepted(id: int, names: string, marks: string, subjects: set<string>, limit: nat)
    requires PlainNames(subjects)
    ensures InsertPairs(id, names, marks, subjects, limit).Some?
            <==> && ValidLists(Pieces(names, ","), Pieces(marks, ","), subjects)
                 && Distinct(Pieces(names, ",")) && EmptyTails(names, marks) == 0
                 && InsertScoreLength(names, id, marks) <= limit
  {
    PiecesDropOne(names, ",");
    PiecesDropOne(marks, ",");
    if ParseInsert(names, marks, subjects).Some? {
      AcceptedInsertHasNoEmptyPiece(names, marks, subjects);
    }
    ParsedListsAreValid(FullSplit(names, ","), FullSplit(marks, ","), subjects);
  }

  /** The UPDATE of the printed list is accepted exactly for valid pieces that fit: it is shorter than
      the INSERT by four characters and the empty tails, and lets a column be set twice. */
  lemma UpdateAccepted(id: int, names: string, marks: string, subjects: set<string>, text: string, limit: nat)
    requires PlainNames(subjects)
    requires UpdateSetText(Pieces(names, ","), Pieces(marks, ",")) == Some(text)
    ensures UpdatePairs(id, text, subjects, limit).Some?
            <==> && ValidLists(Pieces(names, ","), Pieces(marks, ","), subjects)
                 && InsertScoreLength(names, id, marks) <= limit + 4 + EmptyTails(names, marks)
  {
    PrintedSetAccepted(names, marks, subjects, text);
    if ValidLists(Pieces(names, ","), Pieces(marks, ","), subjects) {
      PrintedSetLength(names, marks, text);
    }
  }

  /** For a registered user the two branches take a printed request alike, writing the same pairs or
      refusing it, except when its pieces are valid, the UPDATE fits, and a column is repeated, a
      list ends in an empty piece, or the INSERT is one of those up to four characters too long. */
  lemma BranchesAgree(id: int, names: string, marks: string, subjects: set<string>, text: string)
    requires PlainNames(subjects)
    requires UpdateSetText(Pieces(names, ","), Pieces(marks, ",")) == Some(text)
    ensures var n, tails := InsertScoreLength(names, id, marks), EmptyTails(names, marks);
            InsertPairs(id, names, marks, subjects, 200) == UpdatePairs(id, text, subjects, 200)
            <==> !(&& ValidLists(Pieces(names, ","), Pieces(marks, ","), subjects)
                   && n <= 204 + tails
                   && (!Distinct(Pieces(names, ",")) || tails > 0 || n > 200))
  {
    InsertAccepted(id, names, marks, subjects, 200);
    UpdateAccepted(id, names, marks, subjects, text, 200);
    UpsertCoherence(names, marks, subjects, text);
  }

  /** A first score for a new account may be up to 300 characters of INSERT; there the request is
      refused or taken otherwise than a later UPDATE of it also when it is longer than 204. */
  lemma FirstScoreAgrees(id: int, names: string, marks: string, subjects: set<string>, text: string)
    requires PlainNames(subjects)
    requires UpdateSetText(Pieces(names, ","), Pieces(marks, ",")) == Some(text)
    ensures var n, tails := InsertScoreLength(names, id, marks), EmptyTails(names, marks);
            var plain := Distinct(Pieces(names, ",")) && tails == 0;
            InsertPairs(id, names, marks, subjects, 300) == UpdatePairs(id, text, subjects, 200)
            <==> !(&& ValidLists(Pieces(names, ","), Pieces(marks, ","), subjects)
                   && (if plain then 204 < n <= 300 else n <= 204 + tails))
  {
    InsertAccepted(id, names, marks, subjects, 300);
    UpdateAccepted(id, names, marks, subjects, text, 200);
    UpsertCoherence(names, marks, subjects, text);
  }

  // ---- How many columns it takes for an INSERT to be too long ----

  lemma {:induction false} DistinctFitsSet(v: seq<string>, subjects: set<string>)
    requires Distinct(v) && forall i :: 0 <= i < |v| ==> v[i] in subjects
    ensures |v| <= |subjects|
  {
    if v != [] {
      DistinctFitsSet(v[1..], subjects - {v[0]});
    }
  }

  lemma {:induction false} TotalAtMost(v: seq<string>, w: seq<string>, m: nat)
    requires |v| == |w| && forall i :: 0 <= i < |v| ==> |v[i]| + |w[i]| <= m
    ensures TotalLength(v) + TotalLength(w) <= |v| * m
  {
    if v != [] {
      TotalAtMost(v[1..], w[1..], m);
    }
  }

  lemma ListsBound(cols: seq<string>, marks: seq<string>, count: nat, m: nat)
    requires 0 < |cols| == |marks| <= count
    requires forall i :: 0 <= i < |cols| ==> |cols[i]| + |marks[i]| <= m
    ensures |Join(cols, ",")| + |Join(marks, ",")| + 2 <= count * (m + 2)
  {
    JoinLength(cols, ",");
    JoinLength(marks, ",");
    TotalAtMost(cols, marks, m);
    Times(|cols|, count, m + 2);
    assert |cols| * (m + 2) == |cols| * m + 2 * |cols|;
  }

  lemma Times(a: nat, b: nat, c: nat)
    requires a <= b
    ensures a * c <= b * c
  {
  }

  /** The INSERT text of lists it accepts but for their length, when no name and mark together have more
      than m characters. */
  lemma InsertLengthBound(id: int, names: string, marks: string, subjects: set<string>, m: nat)
    requires ValidLists(Pieces(names, ","), Pieces(marks, ","), subjects) && 0 <= id <= LAST_ID
    requires Distinct(Pieces(names, ",")) && EmptyTails(names, marks) == 0
    requires forall i :: 0 <= i < |Pieces(names, ",")| ==>
               |Pieces(names, ",")[i]| + |Pieces(marks, ",")[i]| <= m
    ensures InsertScoreLength(names, id, marks) <= 48 + |subjects| * (m + 2)
  {
    var cols, vals := Pieces(names, ","), Pieces(marks, ",");
    PiecesLength(names);
    PiecesLength(marks);
    DistinctFitsSet(cols, subjects);
    ListsBound(cols, vals, |subjects|, m);
    IdWidth(id);
  }

  /** With at most five columns, as in every state the procedures reach, length makes no difference:
      the branches part only over a repeated column or an empty last piece. */
  lemma FewSubjectsAgree(id: int, names: string, marks: string, subjects: set<string>, text: string)
    requires PlainNames(subjects) && |subjects| <= 5 && 0 <= id <= LAST_ID
    requires UpdateSetText(Pieces(names, ","), Pieces(marks, ",")) == Some(text)
    ensures var n, tails := InsertScoreLength(names, id, marks), EmptyTails(names, marks);
            InsertPairs(id, names, marks, subjects, 200) == UpdatePairs(id, text, subjects, 200)
            <==> !(&& ValidLists(Pieces(names, ","), Pieces(marks, ","), subjects)
                   && n <= 204 + tails && (!Distinct(Pieces(names, ",")) || tails > 0))
  {
    BranchesAgree(id, names, marks, subjects, text);
    if ValidLists(Pieces(names, ","), Pieces(marks, ","), subjects)
       && Distinct(Pieces(names, ",")) && EmptyTails(names, marks) == 0 {
      InsertLengthBound(id, names, marks, subjects, 28);
    }
  }

  /** The columns the server knows and can add to the table. */
  const SERVER_NAMES := [
    "chinese", "math", "english", "physics", "chemistry", "biology", "history", "politics", "geography"
  ]

  const SERVER_SUBJECTS := set x | x in SERVER_NAMES

  lemma ServerNames()
    ensures |SERVER_NAMES| == 9 && Distinct(SERVER_NAMES)
    ensures forall i :: 0 <= i < 9 ==> PlainName(SERVER_NAMES[i]) && |SERVER_NAMES[i]| <= 9
  {
    assert Distinct(SERVER_NAMES) by {
      assert forall i, j :: 0 <= i < j < 9 ==>
        SERVER_NAMES[i][0] != SERVER_NAMES[j][0] || |SERVER_NAMES[i]| != |SERVER_NAMES[j]|;
    }
  }

  lemma {:induction false} NamesInSet(v: seq<string>)
    ensures |set x | x in v| <= |v|
  {
    if v != [] {
      NamesInSet(v[1..]);
      assert (set x | x in v) == {v[0]} + set x | x in v[1..];
    }
  }

  /** Nor does it with the server's columns, as long as the marks are printed without padding. */
  lemma UnpaddedMarksAgree(id: int, names: string, marks: string, subjects: set<string>, text: string)
    requires subjects <= SERVER_SUBJECTS && 0 <= id <= LAST_ID
    requires forall i :: 0 <= i < |Pieces(marks, ",")| ==> |Pieces(marks, ",")[i]| <= 4
    requires UpdateSetText(Pieces(names, ","), Pieces(marks, ",")) == Some(text)
    ensures var n, tails := InsertScoreLength(names, id, marks), EmptyTails(names, marks);
            InsertPairs(id, names, marks, subjects, 200) == UpdatePairs(id, text, subjects, 200)
            <==> !(&& ValidLists(Pieces(names, ","), Pieces(marks, ","), subjects)
                   && n <= 204 + tails && (!Distinct(Pieces(names, ",")) || tails > 0))
  {
    ServerNames();
    NamesInSet(SERVER_NAMES);
    assert |subjects| <= 9 by {
      assert SERVER_SUBJECTS == subjects + (SERVER_SUBJECTS - subjects);
    }
    BranchesAgree(id, names, marks, subjects, text);
    if ValidLists(Pieces(names, ","), Pieces(marks, ","), subjects)
       && Distinct(Pieces(names, ",")) && EmptyTails(names, marks) == 0 {
      InsertLengthBound(id, names, marks, subjects, 13);
      assert |subjects| * 15 <= 135;
    }
  }
}
