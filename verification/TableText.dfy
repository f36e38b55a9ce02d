/** The client's table parser: lines that contain the filter are skipped, the others are split. */
module TableText {
  import opened Text
  import StringTool

  predicate Contains(s: string, filter: string) {
    Find(s, filter, 0) != -1
  }

  /** The filter stands somewhere in the text. */
  lemma ContainsMeans(s: string, filter: string)
    ensures Contains(s, filter) <==> exists a: string, b: string :: s == a + filter + b
  {
    FindIsFirst(s, filter, 0);
    if Contains(s, filter) {
      var k := Find(s, filter, 0);
      SuffixCut(s, filter, 0, k);
      assert s == s[0..k] + filter + s[k + |filter|..];
    }
    if a: string, b: string :| s == a + filter + b {
      assert s[|a|..|a| + |filter|] == filter;
      assert MatchAt(s, filter, |a|);
    }
  }

  function ParsedTable(lines: seq<string>, sep: string, filter: string): seq<seq<string>> {
    if lines == [] then []
    else (if Contains(lines[0], filter) then [] else [Pieces(lines[0], sep)])
         + ParsedTable(lines[1..], sep, filter)
  }

  lemma {:induction false} ParsedTableSnoc(lines: seq<string>, line: string, sep: string, filter: string)
    ensures ParsedTable(lines + [line], sep, filter)
            == ParsedTable(lines, sep, filter)
               + if Contains(line, filter) then [] else [Pieces(line, sep)]
  {
    if lines != [] {
      ParsedTableSnoc(lines[1..], line, sep, filter);
      assert (lines + [line])[1..] == lines[1..] + [line];
    }
  }

  /** The vector the caller passes by reference. */
  class StringTable {
    var rows: seq<seq<string>>

    constructor ()
      ensures rows == []
    {
      rows := [];
    }

    method StrVecToStr2Vec(lines: seq<string>, sep: string, filter: string)
      returns (ok: bool)
      modifies this
      ensures ok && rows == ParsedTable(lines, sep, filter)
    {
      rows := [];
      for i := 0 to |lines|
        invariant rows == ParsedTable(lines[..i], sep, filter)
      {
        ParsedTableSnoc(lines[..i], lines[i], sep, filter);
        assert lines[..i + 1] == lines[..i] + [lines[i]];
        var line := lines[i];
        if Find(line, filter, 0) != -1 {
          continue;
        }
        var row := StringTool.Splite(line, sep);
        rows := rows + [row];
      }
      assert lines[..|lines|] == lines;
      ok := true;
    }
  }

  function PrintedTable(table: seq<seq<string>>, sep: string): (r: seq<string>)
    ensures |r| == |table|
  {
    if table == [] then [] else [Join(table[0], sep)] + PrintedTable(table[1..], sep)
  }

  ghost predicate RowSurvives(row: seq<string>, sep: string, filter: string) {
    && !Contains(Join(row, sep), filter)
    && (row == [] || (WellSeparated(row, sep) && row[|row| - 1] != ""))
  }

  lemma {:induction false} ParsedTableIsNoLonger(lines: seq<string>, sep: string, filter: string)
    ensures |ParsedTable(lines, sep, filter)| <= |lines|
  {
    if lines != [] {
      ParsedTableIsNoLonger(lines[1..], sep, filter);
    }
  }

  /** A printed table is read back as it was exactly when every row survives. */
  lemma {:induction false} TableRoundTrip(table: seq<seq<string>>, sep: string, filter: string)
    requires sep != ""
    ensures ParsedTable(PrintedTable(table, sep), sep, filter) == table
            <==> forall i :: 0 <= i < |table| ==> RowSurvives(table[i], sep, filter)
  {
    if table != [] {
      var first, rest := Pieces(Join(table[0], sep), sep), PrintedTable(table[1..], sep);
      TableRoundTrip(table[1..], sep, filter);
      SpliteInvertsCombVecToStr(table[0], sep);
      ParsedTableIsNoLonger(rest, sep, filter);
      FirstRowOrRest(table, sep, filter);
      ConsEqual(first, ParsedTable(rest, sep, filter), table);
    }
  }

  lemma FirstRowOrRest(table: seq<seq<string>>, sep: string, filter: string)
    requires table != []
    ensures (forall i :: 0 <= i < |table| ==> RowSurvives(table[i], sep, filter))
            <==> RowSurvives(table[0], sep, filter)
                 && forall i :: 0 <= i < |table[1..]| ==> RowSurvives(table[1..][i], sep, filter)
  {
    assert forall i :: 0 <= i < |table[1..]| ==> table[1..][i] == table[i + 1];
    assert forall i :: 0 < i < |table| ==> table[i] == table[1..][i - 1];
  }

  lemma ConsEqual<T>(x: T, xs: seq<T>, v: seq<T>)
    requires v != []
    ensures [x] + xs == v <==> x == v[0] && xs == v[1..]
  {
    assert v == [v[0]] + v[1..];
    assert ([x] + xs)[1..] == xs;
  }

  /** `lines` is `base` with any number of lines that contain the filter put in anywhere. */
  predicate Padded(lines: seq<string>, base: seq<string>, filter: string) {
    if lines == [] then base == []
    else
      || (Contains(lines[0], filter) && Padded(lines[1..], base, filter))
      || (base != [] && lines[0] == base[0] && Padded(lines[1..], base[1..], filter))
  }

  lemma {:induction false} FilteredLinesAreIgnored(lines: seq<string>, base: seq<string>, sep: string, filter: string)
    requires Padded(lines, base, filter)
    ensures ParsedTable(lines, sep, filter) == ParsedTable(base, sep, filter)
  {
    if lines != [] {
      if Contains(lines[0], filter) && Padded(lines[1..], base, filter) {
        FilteredLinesAreIgnored(lines[1..], base, sep, filter);
      } else {
        FilteredLinesAreIgnored(lines[1..], base[1..], sep, filter);
      }
    }
  }
}
