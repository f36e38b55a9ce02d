/** Delimited text: searching for a separator, splitting at it and joining with it.

    FullSplit keeps every piece, the last one included.  The main results say which lists a
    split can return, when joining is undone by splitting, and how much text is lost. */
module Text {

  predicate MatchAt(s: string, sep: string, i: int) {
    0 <= i && i + |sep| <= |s| && s[i..i + |sep|] == sep
  }

  /** `std::string::find`: the first match at or after `from`, or -1. */
  function Find(s: string, sep: string, from: nat): (r: int)
    requires from <= |s|
    ensures r == -1 || (from <= r && MatchAt(s, sep, r))
    decreases |s| - from
  {
    if MatchAt(s, sep, from) then from
    else if from == |s| then -1
    else Find(s, sep, from + 1)
  }

  lemma {:induction false} FindIsFirst(s: string, sep: string, from: nat)
    requires from <= |s|
    ensures var r := Find(s, sep, from);
            forall j :: from <= j && (r == -1 || j < r) ==> !MatchAt(s, sep, j)
    decreases |s| - from
  {
    if !MatchAt(s, sep, from) && from < |s| {
      FindIsFirst(s, sep, from + 1);
    }
  }

  /** A match with none before it is the one found. */
  lemma FirstIsFound(s: string, sep: string, from: nat, r: nat)
    requires from <= r && MatchAt(s, sep, r)
    requires forall j :: from <= j < r ==> !MatchAt(s, sep, j)
    ensures Find(s, sep, from) == r
  {
    FindIsFirst(s, sep, from);
  }

  function FullSplit(s: string, sep: string): (v: seq<string>)
    requires sep != ""
    ensures |v| > 0
    decreases |s|
  {
    var k := Find(s, sep, 0);
    if k == -1 then [s] else [s[..k]] + FullSplit(s[k + |sep|..], sep)
  }

  function Join(v: seq<string>, sep: string): string {
    if v == [] then "" else if |v| == 1 then v[0] else v[0] + sep + Join(v[1..], sep)
  }

  function DropEmptyTail(v: seq<string>): seq<string> {
    if v != [] && v[|v| - 1] == "" then v[..|v| - 1] else v
  }

  /** What `Splite` returns: every piece but one empty last piece; no pieces for the empty text,
      and the whole text as one piece when the separator is empty. */
  function Pieces(s: string, sep: string): seq<string> {
    if s == "" then []
    else if sep == "" then [s]
    else DropEmptyTail(FullSplit(s, sep))
  }

  /** Cutting `Join(v, sep)` at the first separator again and again meets exactly the ends of
      the pieces.  The separator may overlap itself or the end of a piece. */
  ghost predicate WellSeparated(v: seq<string>, sep: string) {
    if |v| <= 1 then v != [] && Find(v[0], sep, 0) == -1
    else Find(v[0] + sep, sep, 0) == |v[0]| && WellSeparated(v[1..], sep)
  }

  // ---- Splitting and joining are inverse ----

  lemma MatchInPrefix(a: string, rest: string, sep: string, j: nat)
    requires j + |sep| <= |a|
    ensures MatchAt(a + rest, sep, j) <==> MatchAt(a, sep, j)
  {
    assert (a + rest)[j..j + |sep|] == a[j..j + |sep|];
  }

  lemma MatchInSuffix(s: string, sep: string, from: nat, j: nat)
    requires from <= |s|
    ensures MatchAt(s[from..], sep, j) <==> MatchAt(s, sep, from + j)
  {
    if from + j + |sep| <= |s| {
      assert s[from..][j..j + |sep|] == s[from + j..from + j + |sep|];
    }
  }

  lemma FindInSuffix(s: string, sep: string, from: nat)
    requires from <= |s|
    ensures var k := Find(s[from..], sep, 0);
            Find(s, sep, from) == if k == -1 then -1 else from + k
  {
    var k := Find(s[from..], sep, 0);
    FindIsFirst(s[from..], sep, 0);
    forall j | from <= j && (k == -1 || j <= from + k)
      ensures MatchAt(s, sep, j) <==> MatchAt(s[from..], sep, j - from)
    {
      MatchInSuffix(s, sep, from, j - from);
    }
    if k != -1 {
      FirstIsFound(s, sep, from, from + k);
    }
  }

  lemma FullSplitCut(s: string, sep: string, piece: string, rest: string)
    requires sep != "" && Find(s, sep, 0) == |piece| && s == piece + sep + rest
    ensures FullSplit(s, sep) == [piece] + FullSplit(rest, sep)
  {
    assert s[..|piece|] == piece && s[|piece| + |sep|..] == rest;
  }

  /** The first cut of the scan. */
  lemma FirstCut(s: string, sep: string) returns (piece: string, rest: string)
    requires sep != "" && Find(s, sep, 0) != -1
    ensures s == piece + sep + rest && Find(s, sep, 0) == |piece| && |rest| < |s|
    ensures FullSplit(s, sep) == [piece] + FullSplit(rest, sep)
  {
    var k := Find(s, sep, 0);
    piece, rest := s[..k], s[k + |sep|..];
    assert s == piece + s[k..k + |sep|] + rest;
  }

  /** One turn of the scan: what the cut at the next match `r` does to the rest of the split. */
  lemma {:induction false} FullSplitTurn(s: string, sep: string, from: nat, r: int)
    requires sep != "" && from <= |s| && r == Find(s, sep, from)
    ensures FullSplit(s[from..], sep)
            == if r == -1 then [s[from..]] else [s[from..r]] + FullSplit(s[r + |sep|..], sep)
  {
    FindInSuffix(s, sep, from);
    if r != -1 {
      SuffixCut(s, sep, from, r);
      FullSplitCut(s[from..], sep, s[from..r], s[r + |sep|..]);
    }
  }

  lemma SuffixCut(s: string, sep: string, from: nat, r: nat)
    requires from <= r && MatchAt(s, sep, r)
    ensures s[from..] == s[from..r] + sep + s[r + |sep|..]
  {
  }

  /** A first match inside a prefix stays the first match whatever text follows. */
  lemma FindInPrefix(a: string, rest: string, sep: string)
    requires sep != "" && Find(a + sep, sep, 0) == |a|
    ensures Find(a + sep + rest, sep, 0) == |a|
  {
    var t := a + sep + rest;
    FindIsFirst(a + sep, sep, 0);
    forall j | 0 <= j <= |a| ensures MatchAt(t, sep, j) <==> MatchAt(a + sep, sep, j) {
      MatchInPrefix(a + sep, rest, sep, j);
    }
    FirstIsFound(t, sep, 0, |a|);
  }

  lemma FullSplitAfterPiece(a: string, rest: string, sep: string)
    requires sep != "" && Find(a + sep, sep, 0) == |a|
    ensures FullSplit(a + sep + rest, sep) == [a] + FullSplit(rest, sep)
  {
    FindInPrefix(a, rest, sep);
    FullSplitCut(a + sep + rest, sep, a, rest);
  }

  lemma {:induction false} JoinOfFullSplit(s: string, sep: string)
    requires sep != ""
    ensures Join(FullSplit(s, sep), sep) == s
    decreases |s|
  {
    if Find(s, sep, 0) != -1 {
      var piece, rest := FirstCut(s, sep);
      JoinOfFullSplit(rest, sep);
      JoinCons(piece, FullSplit(rest, sep), sep);
    }
  }

  lemma JoinCons(a: string, v: seq<string>, sep: string)
    ensures Join([a] + v, sep) == if v == [] then a else a + sep + Join(v, sep)
  {
    assert ([a] + v)[1..] == v;
  }

  lemma {:induction false} FullSplitIsWellSeparated(s: string, sep: string)
    requires sep != ""
    ensures WellSeparated(FullSplit(s, sep), sep)
    decreases |s|
  {
    if Find(s, sep, 0) != -1 {
      var piece, rest := FirstCut(s, sep);
      FirstPieceThenMatch(piece, rest, sep);
      FullSplitIsWellSeparated(rest, sep);
      WellSeparatedCons(piece, FullSplit(rest, sep), sep);
    }
  }

  lemma WellSeparatedCons(a: string, v: seq<string>, sep: string)
    requires Find(a + sep, sep, 0) == |a| && WellSeparated(v, sep)
    ensures WellSeparated([a] + v, sep)
  {
    assert ([a] + v)[1..] == v;
  }

  lemma FirstPieceThenMatch(piece: string, rest: string, sep: string)
    requires Find(piece + sep + rest, sep, 0) == |piece|
    ensures Find(piece + sep, sep, 0) == |piece|
  {
    var s, head := piece + sep + rest, piece + sep;
    FindIsFirst(s, sep, 0);
    forall j | 0 <= j <= |piece| ensures MatchAt(s, sep, j) <==> MatchAt(head, sep, j) {
      MatchInPrefix(head, rest, sep, j);
    }
    FirstIsFound(head, sep, 0, |piece|);
  }

  lemma {:induction false} FullSplitOfJoin(v: seq<string>, sep: string)
    requires sep != "" && WellSeparated(v, sep)
    ensures FullSplit(Join(v, sep), sep) == v
  {
    if |v| > 1 {
      FullSplitOfJoin(v[1..], sep);
      FullSplitAfterPiece(v[0], Join(v[1..], sep), sep);
    }
  }

  /** FullSplit(s, sep) is the one well separated list that joins to s. */
  lemma FullSplitCharacterized(s: string, sep: string, v: seq<string>)
    requires sep != ""
    ensures v == FullSplit(s, sep) <==> WellSeparated(v, sep) && Join(v, sep) == s
  {
    JoinOfFullSplit(s, sep);
    FullSplitIsWellSeparated(s, sep);
    if WellSeparated(v, sep) && Join(v, sep) == s {
      FullSplitOfJoin(v, sep);
    }
  }

  function TotalLength(v: seq<string>): nat {
    if v == [] then 0 else |v[0]| + TotalLength(v[1..])
  }

  lemma {:induction false} JoinLength(v: seq<string>, sep: string)
    ensures |Join(v, sep)| == TotalLength(v) + (if v == [] then 0 else (|v| - 1) * |sep|)
  {
    if |v| == 1 {
      assert v[1..] == [];
    } else if |v| > 1 {
      JoinLength(v[1..], sep);
      assert (|v| - 1) * |sep| == (|v| - 2) * |sep| + |sep|;
    }
  }

  lemma {:induction false} JoinSnoc(v: seq<string>, x: string, sep: string)
    ensures Join(v + [x], sep) == if v == [] then x else Join(v, sep) + sep + x
  {
    if v == [] {
      assert v + [x] == [x];
    } else {
      JoinSnoc(v[1..], x, sep);
      assert (v + [x])[1..] == v[1..] + [x];
    }
  }

  lemma JoinNext(v: seq<string>, i: nat, sep: string)
    requires i < |v|
    ensures Join(v[..i + 1], sep) == if i == 0 then v[0] else Join(v[..i], sep) + sep + v[i]
  {
    var front, x := v[..i], v[i];
    assert v[..i + 1] == front + [x];
    JoinSnoc(front, x, sep);
  }

  lemma PiecesDropOne(s: string, sep: string)
    requires sep != ""
    ensures Pieces(s, sep) == DropEmptyTail(FullSplit(s, sep))
  {
    assert s == "" ==> Find(s, sep, 0) == -1;
  }

  lemma JoinOfDropped(v: seq<string>, sep: string)
    requires v != []
    ensures var d := DropEmptyTail(v);
            && (v == d || v == d + [""])
            && Join(v, sep) == Join(d, sep) + (if v != d && d != [] then sep else "")
  {
    var d := DropEmptyTail(v);
    if v != d {
      JoinSnoc(d, "", sep);
      assert v == d + [""];
    }
  }

  /** Two lists that join to the same text and agree up to an empty last piece are equal. */
  lemma DropIsInjectiveOnText(v: seq<string>, w: seq<string>, sep: string)
    requires sep != "" && v != [] && w != []
    requires Join(v, sep) == Join(w, sep) && DropEmptyTail(v) == DropEmptyTail(w)
    ensures v == w
  {
    JoinOfDropped(v, sep);
    JoinOfDropped(w, sep);
  }

  /** The round trip, with its exact condition: splitting the joined text gives the list back,
      less one empty last piece, just when the list is empty or well separated. */
  lemma SpliteOfCombVecToStr(v: seq<string>, sep: string)
    requires sep != ""
    ensures Pieces(Join(v, sep), sep) == DropEmptyTail(v) <==> v == [] || WellSeparated(v, sep)
  {
    var s := Join(v, sep);
    PiecesDropOne(s, sep);
    FullSplitCharacterized(s, sep, v);
    if v != [] && Pieces(s, sep) == DropEmptyTail(v) {
      JoinOfFullSplit(s, sep);
      DropIsInjectiveOnText(v, FullSplit(s, sep), sep);
    }
  }

  lemma {:induction false} DropGivesText(v: seq<string>, w: seq<string>, sep: string)
    requires sep != "" && v != [] && DropEmptyTail(w) == v && Join(v, sep) == Join(w, sep)
    ensures w == v && v[|v| - 1] != ""
  {
    assert w == v || w == v + [""];
    JoinSnoc(v, "", sep);
  }

  /** The list itself comes back just when, in addition, it does not end in an empty piece. */
  lemma SpliteInvertsCombVecToStr(v: seq<string>, sep: string)
    requires sep != ""
    ensures Pieces(Join(v, sep), sep) == v
            <==> v == [] || (WellSeparated(v, sep) && v[|v| - 1] != "")
  {
    var s := Join(v, sep);
    SpliteOfCombVecToStr(v, sep);
    if v != [] && Pieces(s, sep) == v {
      PiecesDropOne(s, sep);
      JoinOfFullSplit(s, sep);
      DropGivesText(v, FullSplit(s, sep), sep);
    }
  }

  /** The last separator found ends the text: the scan is left with an empty tail. */
  ghost predicate ScanConsumesAll(s: string, sep: string)
    requires sep != ""
  {
    var v := FullSplit(s, sep);
    v[|v| - 1] == ""
  }

  /** Joining the pieces rebuilds the text, short of the last separator when the scan consumed
      the whole text. */
  lemma SpliteReconstructs(s: string, sep: string)
    requires s != "" && sep != ""
    ensures s == Join(Pieces(s, sep), sep) + (if ScanConsumesAll(s, sep) then sep else "")
  {
    JoinOfFullSplit(s, sep);
    PiecesDropOne(s, sep);
    var full, v := FullSplit(s, sep), Pieces(s, sep);
    if ScanConsumesAll(s, sep) {
      assert full == v + [""];
      JoinSnoc(v, "", sep);
    }
  }

  /** The empty separator cuts nothing: a text is its own one piece, the empty text has none. */
  lemma EmptySeparatorCutsNothing(s: string, sep: string)
    ensures Join(Pieces(s, ""), sep) == s && |Pieces(s, "")| == if s == "" then 0 else 1
  {
  }

  lemma {:induction false} TotalLengthSnoc(v: seq<string>, x: string)
    ensures TotalLength(v + [x]) == TotalLength(v) + |x|
  {
    if v == [] {
      assert (v + [x])[1..] == [];
    } else {
      TotalLengthSnoc(v[1..], x);
      assert (v + [x])[1..] == v[1..] + [x];
    }
  }

  /** No character is lost: the pieces and one separator for each cut make up the text. */
  lemma SpliteConservesLength(s: string, sep: string)
    requires sep != ""
    ensures |s| == TotalLength(Pieces(s, sep)) + (|FullSplit(s, sep)| - 1) * |sep|
  {
    var full := FullSplit(s, sep);
    JoinOfFullSplit(s, sep);
    JoinLength(full, sep);
    PiecesDropOne(s, sep);
    if full[|full| - 1] == "" {
      TotalLengthSnoc(full[..|full| - 1], "");
      assert full == full[..|full| - 1] + [""];
    }
  }

  // ---- When a text that ends in the separator loses a piece ----

  predicate EndsWith(s: string, sep: string) {
    MatchAt(s, sep, |s| - |sep|)
  }

  /** No proper end of the separator is also its beginning. */
  predicate Borderless(sep: string) {
    forall b :: 0 < b < |sep| ==> sep[b..] != sep[..|sep| - b]
  }

  lemma ConsumesAllCons(s: string, sep: string, piece: string, rest: string)
    requires sep != "" && FullSplit(s, sep) == [piece] + FullSplit(rest, sep)
    ensures ScanConsumesAll(s, sep) <==> ScanConsumesAll(rest, sep)
  {
  }

  lemma {:induction false} ConsumedTextEndsWithSeparator(s: string, sep: string)
    requires sep != "" && s != "" && ScanConsumesAll(s, sep)
    ensures EndsWith(s, sep)
    decreases |s|
  {
    assert Find(s, sep, 0) != -1;
    var piece, rest := FirstCut(s, sep);
    ConsumesAllCons(s, sep, piece, rest);
    if rest != "" {
      ConsumedTextEndsWithSeparator(rest, sep);
      EndsWithAfter(piece + sep, rest, sep);
    } else {
      assert s == piece + sep;
      EndsWithAfter(piece, sep, sep);
    }
  }

  lemma EndsWithAfter(a: string, b: string, sep: string)
    requires EndsWith(b, sep)
    ensures EndsWith(a + b, sep)
  {
    MatchAfter(a, b, sep, |b| - |sep|);
  }

  lemma MatchAfter(a: string, rest: string, sep: string, j: nat)
    ensures MatchAt(rest, sep, j) <==> MatchAt(a + rest, sep, |a| + j)
  {
    MatchInSuffix(a + rest, sep, |a|, j);
    assert (a + rest)[|a|..] == rest;
  }

  lemma OverlapIsBorder(s: string, sep: string, k: int, e: int)
    requires MatchAt(s, sep, k) && MatchAt(s, sep, e) && 0 < e - k < |sep|
    ensures sep[e - k..] == sep[..|sep| - (e - k)]
  {
    var m, b := |sep|, e - k;
    assert sep[b..] == s[k..k + m][b..] == s[e..k + m] == s[e..e + m][..m - b] == sep[..m - b];
  }

  lemma FoundAtOrBefore(s: string, sep: string, e: int)
    requires MatchAt(s, sep, e)
    ensures 0 <= Find(s, sep, 0) <= e
  {
    FindIsFirst(s, sep, 0);
  }

  lemma {:induction false} BorderlessScanConsumesAll(s: string, sep: string)
    requires sep != "" && Borderless(sep) && EndsWith(s, sep)
    ensures ScanConsumesAll(s, sep)
    decreases |s|
  {
    FoundAtOrBefore(s, sep, |s| - |sep|);
    var piece, rest := FirstCut(s, sep);
    ConsumesAllCons(s, sep, piece, rest);
    if rest == "" {
      assert Find("", sep, 0) == -1;
    } else {
      TailEndsWith(piece, rest, sep);
      BorderlessScanConsumesAll(rest, sep);
    }
  }

  /** The last match of a borderless separator does not overlap an earlier one. */
  lemma TailEndsWith(piece: string, rest: string, sep: string)
    requires sep != "" && Borderless(sep) && rest != "" && EndsWith(piece + sep + rest, sep)
    ensures EndsWith(rest, sep)
  {
    var s := piece + sep + rest;
    if |rest| < |sep| {
      MatchInPrefix(piece + sep, rest, sep, |piece|);
      MatchAfter(piece, sep, sep, 0);
      OverlapIsBorder(s, sep, |piece|, |s| - |sep|);
    } else {
      MatchAfter(piece + sep, rest, sep, |rest| - |sep|);
    }
  }

  lemma OverlapKeepsTail(sep: string, b: nat)
    requires 0 < b < |sep| && sep[b..] == sep[..|sep| - b]
    ensures var s := sep[..b] + sep; EndsWith(s, sep) && !ScanConsumesAll(s, sep)
  {
    var s, m := sep[..b] + sep, |sep|;
    assert s[|s| - m..] == sep;
    assert s[..m] == sep[..b] + sep[..m - b] == sep[..b] + sep[b..] == sep;
    assert MatchAt(s, sep, 0);
    var rest := s[m..];
    assert Find(rest, sep, 0) == -1;
    assert FullSplit(s, sep) == [s[..0]] + [rest];
  }

  /** `Splite` drops a piece from every text that ends in the separator exactly when the separator
      cannot overlap itself; "aaa" split at "aa" shows the other case. */
  lemma TailDroppedIffBorderless(sep: string)
    requires sep != ""
    ensures (forall s :: s != "" ==> (ScanConsumesAll(s, sep) <==> EndsWith(s, sep)))
            <==> Borderless(sep)
  {
    if Borderless(sep) {
      forall s | s != "" ensures ScanConsumesAll(s, sep) <==> EndsWith(s, sep) {
        if EndsWith(s, sep) {
          BorderlessScanConsumesAll(s, sep);
        } else if ScanConsumesAll(s, sep) {
          ConsumedTextEndsWithSeparator(s, sep);
        }
      }
    } else {
      var b :| 0 < b < |sep| && sep[b..] == sep[..|sep| - b];
      OverlapKeepsTail(sep, b);
      assert sep[..b] + sep != "";
    }
  }

  // ---- Lists that are well separated for an evident reason ----

  lemma MatchStartsLikeSeparator(s: string, sep: string, j: int)
    requires sep != "" && 0 <= j < |s|
    ensures MatchAt(s, sep, j) ==> s[j] == sep[0]
  {
    assert MatchAt(s, sep, j) ==> s[j..j + |sep|][0] == s[j];
  }

  lemma {:induction false} FirstMatchAfterAvoidingPiece(a: string, sep: string)
    requires sep != "" && sep[0] !in a
    ensures Find(a + sep, sep, 0) == |a| && Find(a, sep, 0) == -1
  {
    forall j | 0 <= j < |a| ensures !MatchAt(a + sep, sep, j) && !MatchAt(a, sep, j) {
      MatchStartsLikeSeparator(a + sep, sep, j);
      MatchStartsLikeSeparator(a, sep, j);
      assert (a + sep)[j] == a[j];
    }
    FirstIsFound(a + sep, sep, 0, |a|);
  }

  /** Pieces that do not contain the separator's first character are well separated. */
  lemma {:induction false} AvoidingPiecesAreWellSeparated(v: seq<string>, sep: string)
    requires sep != "" && v != []
    requires forall i :: 0 <= i < |v| ==> sep[0] !in v[i]
    ensures WellSeparated(v, sep)
  {
    FirstMatchAfterAvoidingPiece(v[0], sep);
    if |v| > 1 {
      AvoidingPiecesAreWellSeparated(v[1..], sep);
    }
  }

  lemma NoMatchNoCharacter(s: string, c: char, k: nat)
    requires k <= |s| && forall j :: 0 <= j < k ==> !MatchAt(s, [c], j)
    ensures c !in s[..k]
  {
    forall j | 0 <= j < k ensures s[j] != c {
      assert s[j..j + 1] == [s[j]];
      assert !MatchAt(s, [c], j);
    }
  }

  lemma {:induction false} PiecesAvoidSeparator(s: string, c: char, i: nat)
    requires i < |FullSplit(s, [c])|
    ensures c !in FullSplit(s, [c])[i]
    decreases |s|
  {
    FindIsFirst(s, [c], 0);
    if Find(s, [c], 0) == -1 {
      NoMatchNoCharacter(s, c, |s|);
      assert s[..|s|] == s;
    } else {
      var piece, rest := FirstCut(s, [c]);
      NoMatchNoCharacter(s, c, |piece|);
      assert s[..|piece|] == piece;
      if i > 0 {
        PiecesAvoidSeparator(rest, c, i - 1);
      }
    }
  }

  /** Nonempty pieces without the separator's first character come back from their joined text. */
  lemma {:induction false} AvoidingPiecesComeBack(v: seq<string>, sep: string)
    requires sep != ""
    requires forall i :: 0 <= i < |v| ==> v[i] != "" && sep[0] !in v[i]
    ensures Pieces(Join(v, sep), sep) == v
  {
    SpliteInvertsCombVecToStr(v, sep);
    if v != [] {
      AvoidingPiecesAreWellSeparated(v, sep);
    }
  }
}
