/** The stored procedure `str_spilt` and the MySQL string functions it is made of. */
module StrSpilt {
  import opened Text

  function Reverse(s: string): (r: string)
    ensures |r| == |s|
  {
    seq(|s|, i requires 0 <= i < |s| => s[|s| - 1 - i])
  }

  /** SUBSTRING_INDEX for a count of at least zero: the text before the count-th delimiter. */
  function SubstringIndex(s: string, delim: string, count: nat): string
    decreases count
  {
    if s == "" || delim == "" || count == 0 then ""
    else
      var k := Find(s, delim, 0);
      if k == -1 then s
      else if count == 1 then s[..k]
      else s[..k] + delim + SubstringIndex(s[k + |delim|..], delim, count - 1)
  }

  /** REPLACE(s, pattern, ''). */
  function RemoveAll(s: string, pattern: string): string
    decreases |s|
  {
    if pattern == "" then s
    else
      var k := Find(s, pattern, 0);
      if k == -1 then s else s[..k] + RemoveAll(s[k + |pattern|..], pattern)
  }

  /** The row of turn `i`: what follows the last delimiter of the text before the i-th one, where
      "last" is found by looking for the delimiter, unreversed, in the reversed text. */
  function RowText(text: string, sep: string, i: nat): string {
    Reverse(SubstringIndex(Reverse(SubstringIndex(text, sep, i)), sep, 1))
  }

  function RowOf(text: string, sep: string): nat -> string {
    (i: nat) => RowText(text, sep, i)
  }

  /** f(1), ..., f(n). */
  function Tabulate<T>(f: nat -> T, n: nat): (v: seq<T>)
    ensures |v| == n
  {
    if n == 0 then [] else Tabulate(f, n - 1) + [f(n)]
  }

  lemma {:induction false} TabulateAt<T>(f: nat -> T, n: nat, i: nat)
    requires i < n
    ensures Tabulate(f, n)[i] == f(i + 1)
  {
    if i < n - 1 {
      TabulateAt(f, n - 1, i);
    }
  }

  function RowCount(text: string, sep: string): nat {
    if sep == "" then 1 else |FullSplit(text, sep)|
  }

  function Rows(text: string, sep: string): seq<string> {
    Tabulate(RowOf(text, sep), RowCount(text, sep))
  }

  lemma {:induction false} RemoveAllLeavesPieces(s: string, pattern: string)
    requires pattern != ""
    ensures |RemoveAll(s, pattern)| == TotalLength(FullSplit(s, pattern))
    decreases |s|
  {
    var k := Find(s, pattern, 0);
    if k == -1 {
      assert FullSplit(s, pattern)[1..] == [];
    } else {
      var rest := s[k + |pattern|..];
      RemoveAllLeavesPieces(rest, pattern);
      assert FullSplit(s, pattern)[1..] == FullSplit(rest, pattern);
    }
  }

  lemma {:induction false} RemoveAllLength(s: string, pattern: string)
    requires pattern != ""
    ensures |s| - |RemoveAll(s, pattern)| == (|FullSplit(s, pattern)| - 1) * |pattern|
  {
    RemoveAllLeavesPieces(s, pattern);
    JoinOfFullSplit(s, pattern);
    JoinLength(FullSplit(s, pattern), pattern);
  }

  lemma {:induction false} DivideMultiple(n: nat, m: nat)
    requires m > 0
    ensures n * m / m == n && (n > 0 <==> n * m > 0)
  {
    assert n > 0 ==> n * m == (n - 1) * m + m;
    DivideUnique(n * m, m, n);
  }

  lemma {:induction false} DivideUnique(a: int, m: int, q: int)
    requires m > 0 && a == q * m
    ensures a / m == q
  {
    var d := a / m - q;
    assert a == (a / m) * m + a % m;
    assert d * m == (a / m) * m - q * m;
    assert d >= 1 ==> d * m >= m;
    assert d <= -1 ==> d * m <= -m;
  }

  /** The length arithmetic of the procedure counts the pieces. */
  lemma {:induction false} CountedRows(text: string, sep: string)
    ensures var count := |text| - |RemoveAll(text, sep)|;
            RowCount(text, sep) == if count > 0 && sep != "" then 1 + count / |sep| else 1
    ensures |text| - |RemoveAll(text, sep)| > 0 ==> sep != ""
  {
    if sep != "" {
      RemoveAllLength(text, sep);
      DivideMultiple(|FullSplit(text, sep)| - 1, |sep|);
    }
  }

  /** A session's temporary table, which every call empties first. */
  class Session {
    var splitResult: seq<string>

    constructor ()
      ensures splitResult == []
    {
      splitResult := [];
    }

    method StrSpilt(text: string, sep: string)
      modifies this
      ensures splitResult == Rows(text, sep)
    {
      var i := 0;
      splitResult := [];
      var count := |text| - |RemoveAll(text, sep)|;
      CountedRows(text, sep);
      if count > 0 {
        count := 1 + count / |sep|;
      } else {
        count := 1;
      }
      while i < count
        invariant 0 <= i <= count
        invariant splitResult == Tabulate(RowOf(text, sep), i)
      {
        i := i + 1;
        var result := Reverse(SubstringIndex(Reverse(SubstringIndex(text, sep, i)), sep, 1));
        splitResult := splitResult + [result];
      }
    }
  }

  // ---- One-character separators ----

  lemma SubstringIndexCut(s: string, delim: string, piece: string, rest: string, n: nat)
    requires delim != "" && n > 0 && Find(s, delim, 0) == |piece| && s == piece + delim + rest
    ensures SubstringIndex(s, delim, n)
            == if n == 1 then piece else piece + delim + SubstringIndex(rest, delim, n - 1)
  {
    assert s[..|piece|] == piece && s[|piece| + |delim|..] == rest;
  }

  lemma JoinTaken(x: string, v: seq<string>, n: nat, sep: string)
    requires 0 < n <= |v| + 1
    ensures Join(([x] + v)[..n], sep) == if n == 1 then x else x + sep + Join(v[..n - 1], sep)
  {
    assert ([x] + v)[..n] == [x] + v[..n - 1];
    assert ([x] + v[..n - 1])[1..] == v[..n - 1];
  }

  lemma {:induction false} SubstringIndexIsPrefix(s: string, delim: string, n: nat)
    requires delim != "" && 0 < n <= |FullSplit(s, delim)|
    ensures SubstringIndex(s, delim, n) == Join(FullSplit(s, delim)[..n], delim)
  {
    var k := Find(s, delim, 0);
    if k == -1 {
      assert FullSplit(s, delim)[..n] == [s];
    } else {
      var piece, rest := s[0..k], s[k + |delim|..];
      SuffixCut(s, delim, 0, k);
      FullSplitCut(s, delim, piece, rest);
      SubstringIndexCut(s, delim, piece, rest, n);
      JoinTaken(piece, FullSplit(rest, delim), n, delim);
      if n > 1 {
        SubstringIndexIsPrefix(rest, delim, n - 1);
      }
    }
  }

  /** The reversed search finds the end of the last piece. */
  lemma LastPartFound(front: string, c: char, last: string)
    requires c !in last
    ensures Reverse(SubstringIndex(Reverse(last), [c], 1)) == last
    ensures Reverse(SubstringIndex(Reverse(front + [c] + last), [c], 1)) == last
  {
    var a := Reverse(last);
    assert c !in a;
    FirstMatchAfterAvoidingPiece(a, [c]);
    FindInPrefix(a, Reverse(front), [c]);
    assert Reverse(front + [c] + last) == a + [c] + Reverse(front);
    assert Reverse(a) == last;
    assert (a + [c] + Reverse(front))[..|a|] == a;
  }

  lemma OneCharacterRow(text: string, c: char, i: nat)
    requires i < |FullSplit(text, [c])|
    ensures RowText(text, [c], i + 1) == FullSplit(text, [c])[i]
  {
    var v := FullSplit(text, [c]);
    SubstringIndexIsPrefix(text, [c], i + 1);
    JoinNext(v, i, [c]);
    PiecesAvoidSeparator(text, c, i);
    LastPartFound(Join(v[..i], [c]), c, v[i]);
  }

  lemma OneCharacterRows(text: string, c: char)
    ensures Rows(text, [c]) == FullSplit(text, [c])
  {
    var n := |FullSplit(text, [c])|;
    forall i | 0 <= i < n ensures Tabulate(RowOf(text, [c]), n)[i] == FullSplit(text, [c])[i] {
      TabulateAt(RowOf(text, [c]), n, i);
      OneCharacterRow(text, c, i);
    }
  }

  // ---- Any separator ----

  /** The empty separator yields one empty row. */
  lemma EmptySeparatorRow(text: string)
    ensures Rows(text, "") == [""]
  {
    assert Tabulate(RowOf(text, ""), 0) == [];
  }

  lemma ReversedMatch(t: string, sep: string, k: nat)
    requires k + |sep| <= |t|
    ensures MatchAt(Reverse(t), sep, k) <==> MatchAt(t, Reverse(sep), |t| - |sep| - k)
  {
    var j, m := |t| - |sep| - k, |sep|;
    var a, b := Reverse(t)[k..k + m], t[j..j + m];
    forall i | 0 <= i < m ensures a[i] == Reverse(b)[i] {
      assert a[i] == Reverse(t)[k + i] && Reverse(b)[i] == b[m - 1 - i] == t[j + (m - 1 - i)];
    }
    assert a == Reverse(b);
    assert Reverse(Reverse(b)) == b && Reverse(Reverse(sep)) == sep;
  }

  /** No match of the pattern in the text comes after this one; -1 is for no match at all. */
  ghost predicate LastMatch(t: string, pattern: string, j: int) {
    (j == -1 || MatchAt(t, pattern, j)) && forall k :: k > j ==> !MatchAt(t, pattern, k)
  }

  function LastReversed(t: string, sep: string): int {
    var k := Find(Reverse(t), sep, 0);
    if k == -1 then -1 else |t| - |sep| - k
  }

  lemma NoLaterMatch(t: string, sep: string, j: int)
    requires j > LastReversed(t, sep)
    ensures !MatchAt(t, Reverse(sep), j)
  {
    if 0 <= j <= |t| - |sep| {
      FindIsFirst(Reverse(t), sep, 0);
      ReversedMatch(t, sep, |t| - |sep| - j);
    }
  }

  lemma LastInReverse(t: string, sep: string)
    ensures LastMatch(t, Reverse(sep), LastReversed(t, sep))
  {
    if LastReversed(t, sep) != -1 {
      ReversedMatch(t, sep, Find(Reverse(t), sep, 0));
    }
    forall j | j > LastReversed(t, sep) ensures !MatchAt(t, Reverse(sep), j) {
      NoLaterMatch(t, sep, j);
    }
  }

  lemma ReverseOfPrefix(t: string, k: nat)
    requires k <= |t|
    ensures Reverse(Reverse(t)[..k]) == t[|t| - k..]
  {
  }

  lemma AfterLastReversed(t: string, sep: string)
    requires sep != ""
    ensures var j := LastReversed(t, sep);
            Reverse(SubstringIndex(Reverse(t), sep, 1)) == if j == -1 then t else t[j + |sep|..]
  {
    var k := Find(Reverse(t), sep, 0);
    ReverseOfPrefix(t, if k == -1 then |t| else k);
    assert Reverse(t)[..|t|] == Reverse(t) && t[0..] == t;
  }

  /** The row of turn i is what follows the last reversed separator in the first i pieces, or all of
      them if there is none. */
  lemma RowFollowsLastReversed(text: string, sep: string, i: nat)
    requires sep != "" && 0 < i <= |FullSplit(text, sep)|
    ensures var t := Join(FullSplit(text, sep)[..i], sep);
            exists j :: LastMatch(t, Reverse(sep), j)
                        && RowText(text, sep, i) == if j == -1 then t else t[j + |sep|..]
  {
    SubstringIndexIsPrefix(text, sep, i);
    AfterLastReversed(Join(FullSplit(text, sep)[..i], sep), sep);
    LastInReverse(Join(FullSplit(text, sep)[..i], sep), sep);
  }

  // ---- Longer separators ----

  lemma {:induction false} FullSplitOfSeparator(p: string, tail: string)
    requires p != "" && |tail| < |p|
    ensures FullSplit(p + tail, p) == ["", tail]
    ensures SubstringIndex(p + tail, p, 2) == p + tail
  {
    var s := p + tail;
    assert MatchAt(s, p, 0);
    assert s[|p|..] == tail && s[..0] == "";
    assert Find(tail, p, 0) == -1;
    assert FullSplit(tail, p) == [tail];
    assert SubstringIndex(tail, p, 1) == tail;
  }

  /** A separator that is not its own reverse is not found when it is the whole text. */
  lemma AsymmetricSeparatorRow(p: string)
    requires p != "" && Reverse(p) != p
    ensures RowText(p, p, 2) == p
  {
    FullSplitOfSeparator(p, "");
    assert p + "" == p;
    var r := Reverse(p);
    assert r[0..|p|] == r;
    assert Find(r, p, 0) == -1;
    assert SubstringIndex(r, p, 1) == r;
    assert Reverse(r) == p;
  }

  /** A longer separator that is its own reverse is found too early in the reverse of p + p[1..]. */
  lemma SymmetricSeparatorRow(p: string)
    requires |p| > 1 && Reverse(p) == p
    ensures RowText(p + p[1..], p, 2) == ""
  {
    var s := p + p[1..];
    var r := Reverse(s);
    FullSplitOfSeparator(p, p[1..]);
    ReverseStartsWith(p);
    assert Find(r, p, 0) == 0;
    assert SubstringIndex(r, p, 1) == r[..0];
  }

  lemma ReverseStartsWith(p: string)
    requires |p| > 1 && Reverse(p) == p
    ensures MatchAt(Reverse(p + p[1..]), p, 0)
  {
    var r := Reverse(p + p[1..]);
    assert Reverse(p)[0] == p[|p| - 1];
    assert forall j :: 0 <= j < |p| ==> r[j] == Reverse(p)[j];
    assert r[0..0 + |p|] == p;
  }

  /** A text with two pieces of which the second row returns something else. */
  lemma {:induction false} SecondRowDiffers(p: string, tail: string)
    requires p != "" && |tail| < |p| && RowText(p + tail, p, 2) != tail
    ensures Rows(p + tail, p) != FullSplit(p + tail, p)
  {
    FullSplitOfSeparator(p, tail);
    TabulateAt(RowOf(p + tail, p), 2, 1);
  }

  /** `str_spilt` returns the pieces of every text exactly for one-character separators. */
  lemma {:induction false} SpiltIsFullSplitIffOneCharacter(sep: string)
    requires sep != ""
    ensures (forall text :: Rows(text, sep) == FullSplit(text, sep)) <==> |sep| == 1
  {
    if |sep| == 1 {
      assert sep == [sep[0]];
      forall text ensures Rows(text, sep) == FullSplit(text, sep) {
        OneCharacterRows(text, sep[0]);
      }
    } else if Reverse(sep) != sep {
      AsymmetricSeparatorRow(sep);
      assert sep + "" == sep;
      SecondRowDiffers(sep, "");
    } else {
      SymmetricSeparatorRow(sep);
      SecondRowDiffers(sep, sep[1..]);
    }
  }

  /** The two splitters agree up to the empty last piece, which `Splite` drops. */
  lemma SpliteIsSpiltLessEmptyTail(text: string, sep: string)
    requires |sep| == 1
    ensures Pieces(text, sep) == DropEmptyTail(Rows(text, sep))
  {
    SpiltIsFullSplitIffOneCharacter(sep);
    PiecesDropOne(text, sep);
  }
}
