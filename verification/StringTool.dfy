/** The delimiter codec of the client and the server, method by method.

    `sprintf_s` ends the program when the text does not fit its buffer; a method that can meet
    this returns None for it. */
module StringTool {
  import opened Decimal
  import opened Text
  import opened Wrappers

  newtype byte = x: int | 0 <= x < 256

  // ---- Strings ----

  method Splite(text: string, sep: string) returns (pieces: seq<string>)
    ensures pieces == Pieces(text, sep)
  {
    pieces := [];
    if text == "" {
      return;
    }
    if sep == "" {
      pieces := pieces + [text];
      return;
    }

    var pos := 0;
    ghost var rest := FullSplit(text, sep);
    assert text[0..] == text;
    while true
      invariant 0 <= pos <= |text|
      invariant rest == FullSplit(text[pos..], sep)
      invariant pieces + rest == FullSplit(text, sep)
      decreases |text| - pos
    {
      var next := Find(text, sep, pos);
      FullSplitTurn(text, sep, pos, next);
      if next == -1 {
        CutIsDone(text, sep, pieces, text[pos..]);
        var tail := text[pos..];
        if tail != "" {
          pieces := pieces + [tail];
        }
        return;
      }
      PushOne(pieces, text[pos..next], FullSplit(text[next + |sep|..], sep));
      pieces := pieces + [text[pos..next]];
      pos := next + |sep|;
      rest := FullSplit(text[pos..], sep);
    }
  }

  lemma PushOne<T>(done: seq<T>, x: T, rest: seq<T>)
    ensures done + ([x] + rest) == (done + [x]) + rest
  {
  }

  lemma CutIsDone(text: string, sep: string, done: seq<string>, tail: string)
    requires sep != "" && FullSplit(text, sep) == done + [tail]
    ensures Pieces(text, sep) == if tail == "" then done else done + [tail]
  {
    PiecesDropOne(text, sep);
    DropSnoc(done, tail);
  }

  lemma DropSnoc(done: seq<string>, x: string)
    ensures DropEmptyTail(done + [x]) == if x == "" then done else done + [x]
  {
  }

  method CombVecToStr(list: seq<string>, sep: string) returns (result: string)
    ensures result == Join(list, sep)
  {
    result := "";
    for i := 0 to |list|
      invariant result == Join(list[..i], sep)
    {
      JoinNext(list, i, sep);
      if i != 0 {
        result := result + sep;
      }
      result := result + list[i];
    }
    assert list[..|list|] == list;
  }

  // ---- Numbers ----

  function IntTexts(numbers: seq<int>): (r: seq<string>)
    ensures |r| == |numbers| && forall i :: 0 <= i < |numbers| ==> r[i] == IntToStr(numbers[i])
  {
    seq(|numbers|, i requires 0 <= i < |numbers| => IntToStr(numbers[i]))
  }

  function ParsedInts(s: string, sep: string): seq<int> {
    var v := Pieces(s, sep);
    seq(|v|, i requires 0 <= i < |v| => Atoi(v[i]))
  }

  predicate FitElevenBytes(numbers: seq<int>) {
    forall i :: 0 <= i < |numbers| ==> numbers[i] >= -999_999_999
  }

  method PrintInElevenBytes(n: int) returns (printed: Option<string>)
    requires IsInt32(n)
    ensures printed == if n >= -999_999_999 then Some(IntToStr(n)) else None
  {
    ElevenByteBuffer(n);
    printed := if |IntToStr(n)| < 11 then Some(IntToStr(n)) else None;
  }

  /** The overload for ints, and for permissions, which it prints as ints. */
  method CombIntsToStr(numbers: seq<int>, sep: string) returns (r: Option<string>)
    requires forall i :: 0 <= i < |numbers| ==> IsInt32(numbers[i])
    ensures r == if FitElevenBytes(numbers) then Some(Join(IntTexts(numbers), sep)) else None
  {
    var result := "";
    IntsAll(numbers, sep);
    for i := 0 to |numbers|
      invariant forall j :: 0 <= j < i ==> numbers[j] >= -999_999_999
      invariant result == IntsUpTo(numbers, sep, i)
    {
      NextInt(numbers, sep, i);
      if i != 0 {
        result := result + sep;
      }
      var printed := PrintInElevenBytes(numbers[i]);
      if printed == None {
        return None;
      }
      result := result + printed.value;
    }
    r := Some(result);
  }

  ghost function IntsUpTo(numbers: seq<int>, sep: string, i: nat): string
    requires i <= |numbers|
  {
    Join(IntTexts(numbers)[..i], sep)
  }

  lemma NextInt(numbers: seq<int>, sep: string, i: nat)
    requires i < |numbers|
    ensures IntsUpTo(numbers, sep, i + 1)
            == (if i == 0 then "" else IntsUpTo(numbers, sep, i) + sep) + IntToStr(numbers[i])
  {
    JoinNext(IntTexts(numbers), i, sep);
  }

  lemma IntsAll(numbers: seq<int>, sep: string)
    ensures IntsUpTo(numbers, sep, 0) == ""
    ensures IntsUpTo(numbers, sep, |numbers|) == Join(IntTexts(numbers), sep)
  {
    assert IntTexts(numbers)[..|numbers|] == IntTexts(numbers);
  }

  method NumberToStr(n: int) returns (text: string)
    requires IsInt32(n)
    ensures text == IntToStr(n) && |text| < 12
  {
    TwelveByteBuffer(n);
    text := IntToStr(n);
  }

  /** Splitting and `atoi` undo the printing of any list of ints. */
  lemma IntListRoundTrip(numbers: seq<int>, sep: string)
    requires sep != "" && !IsDigit(sep[0]) && sep[0] != '-'
    ensures ParsedInts(Join(IntTexts(numbers), sep), sep) == numbers
  {
    var texts := IntTexts(numbers);
    forall i | 0 <= i < |numbers| ensures texts[i] != "" && sep[0] !in texts[i] && Atoi(texts[i]) == numbers[i] {
      IntToStrChars(numbers[i], sep[0]);
      AtoiOfIntToStr(numbers[i]);
    }
    AvoidingPiecesComeBack(texts, sep);
  }

  // ---- Byte arrays ----

  function ByteTexts(bytes: seq<byte>): (r: seq<string>)
    ensures |r| == |bytes| && forall i :: 0 <= i < |bytes| ==> r[i] == IntToStr(bytes[i] as int)
  {
    seq(|bytes|, i requires 0 <= i < |bytes| => IntToStr(bytes[i] as int))
  }

  method CombArrayToStr(source: array?<byte>, length: nat, sep: string) returns (result: string)
    requires source != null ==> length <= source.Length
    ensures result == if source == null then "" else Join(ByteTexts(source[..length]), sep)
  {
    result := "";
    if length == 0 || source == null {
      return;
    }
    ghost var texts := ByteTexts(source[..length]);
    for i := 0 to length
      invariant result == Join(texts[..i], sep)
    {
      JoinNext(texts, i, sep);
      if i != 0 {
        result := result + sep;
      }
      var printed := NumberToStr(source[i] as int);
      result := result + printed;
    }
    assert texts[..length] == texts;
  }

  /** The array cells after a call: a cell below both lengths takes its piece modulo 256. */
  function Filled(dst: seq<byte>, length: nat, v: seq<string>): seq<byte> {
    seq(|dst|, i requires 0 <= i < |dst| =>
      if i < length && i < |v| then ByteOf(v[i]) else dst[i])
  }

  /** `(unsigned char)atoi(...)`. */
  function ByteOf(piece: string): byte {
    (Atoi(piece) % 256) as byte
  }

  method StrSpliteToUcArray(target: array?<byte>, length: nat, text: string, sep: string)
    returns (ok: bool)
    requires target != null ==> length <= target.Length
    modifies target
    ensures ok <==> target != null && length > 0 && text != ""
    ensures target != null ==> target[..] == Filled(old(target[..]), length, Pieces(text, sep))
  {
    if target == null || length == 0 || text == "" {
      return false;
    }
    var pieces := Splite(text, sep);
    ghost var cells := Filled(target[..], length, pieces);
    var i := 0;
    while i < |pieces| && i < length
      invariant 0 <= i <= |pieces| && i <= length
      invariant forall j :: 0 <= j < i ==> target[j] == cells[j]
      invariant forall j :: i <= j < target.Length ==> target[j] == old(target[j])
    {
      target[i] := ByteOf(pieces[i]);
      i := i + 1;
    }
    return true;
  }

  /** The text of a nonempty array is not empty, so reading it back succeeds; it sets the cells both
      arrays have and leaves the others. */
  lemma ByteArrayRoundTrip(src: seq<byte>, dst: seq<byte>, m: nat, sep: string)
    requires sep != "" && !IsDigit(sep[0])
    requires src != [] && m <= |dst|
    ensures Join(ByteTexts(src), sep) != ""
    ensures var k := if m < |src| then m else |src|;
            Filled(dst, m, Pieces(Join(ByteTexts(src), sep), sep)) == src[..k] + dst[k..]
  {
    ByteTextsComeBack(src, sep);
    FilledWithTexts(src, dst, m, Pieces(Join(ByteTexts(src), sep), sep));
  }

  /** A printed list of ints is read modulo 256, from the first cell on. */
  lemma PrintedIntsWrap(numbers: seq<int>, dst: seq<byte>, m: nat, sep: string, i: nat)
    requires sep != "" && !IsDigit(sep[0]) && sep[0] != '-'
    requires i < |numbers| && i < m <= |dst|
    ensures var cell := Filled(dst, m, Pieces(Join(IntTexts(numbers), sep), sep))[i] as int;
            0 <= cell < 256 && (numbers[i] - cell) % 256 == 0
  {
    IntListRoundTrip(numbers, sep);
    var s := Join(IntTexts(numbers), sep);
    ParsedIntAt(s, sep, i);
    FilledCell(dst, m, Pieces(s, sep), i);
  }

  lemma ParsedIntAt(s: string, sep: string, i: nat)
    requires i < |ParsedInts(s, sep)|
    ensures i < |Pieces(s, sep)| && ParsedInts(s, sep)[i] == Atoi(Pieces(s, sep)[i])
  {
  }

  lemma FilledCell(dst: seq<byte>, m: nat, v: seq<string>, i: nat)
    requires i < |v| && i < m <= |dst|
    ensures var cell := Filled(dst, m, v)[i] as int; 0 <= cell < 256 && (Atoi(v[i]) - cell) % 256 == 0
  {
  }

  lemma FilledWithTexts(src: seq<byte>, dst: seq<byte>, m: nat, v: seq<string>)
    requires m <= |dst| && |v| == |src|
    requires forall i :: 0 <= i < |v| ==> Atoi(v[i]) == src[i] as int
    ensures var k := if m < |src| then m else |src|; Filled(dst, m, v) == src[..k] + dst[k..]
  {
  }

  lemma ByteTextsComeBack(src: seq<byte>, sep: string)
    requires sep != "" && !IsDigit(sep[0])
    ensures var v := Pieces(Join(ByteTexts(src), sep), sep);
            |v| == |src| && forall i :: 0 <= i < |v| ==> Atoi(v[i]) == src[i] as int
  {
    var texts := ByteTexts(src);
    forall i | 0 <= i < |src|
      ensures texts[i] != "" && sep[0] !in texts[i] && Atoi(texts[i]) == src[i] as int
    {
      AtoiOfIntToStr(src[i] as int);
      assert AllDigits(texts[i]);
    }
    AvoidingPiecesComeBack(texts, sep);
  }

  // ---- The list of assignments of an UPDATE ----

  function Assignments(fields: seq<string>, values: seq<string>): (r: seq<string>)
    requires |fields| == |values|
    ensures |r| == |fields|
    ensures forall i :: 0 <= i < |r| ==> r[i] == fields[i] + "=" + values[i]
  {
    seq(|fields|, i requires 0 <= i < |fields| => fields[i] + "=" + values[i])
  }

  /** None: some assignment and its terminator do not fit 30 bytes. */
  function UpdateSetText(fields: seq<string>, values: seq<string>): Option<string> {
    if fields == [] || values == [] || |fields| != |values| then Some("")
    else if forall i :: 0 <= i < |fields| ==> |fields[i]| + 1 + |values[i]| < 30 then
      Some(Join(Assignments(fields, values), ","))
    else None
  }

  ghost function PrintedUpTo(fields: seq<string>, values: seq<string>, i: nat): string
    requires i <= |fields| == |values|
  {
    Join(Assignments(fields, values)[..i], ",")
  }

  lemma PrintOne(fields: seq<string>, values: seq<string>, i: nat)
    requires i < |fields| == |values|
    ensures PrintedUpTo(fields, values, i + 1)
            == (if i == 0 then "" else PrintedUpTo(fields, values, i) + ",") + (fields[i] + "=" + values[i])
    ensures PrintedUpTo(fields, values, i + 1) != ""
  {
    JoinNext(Assignments(fields, values), i, ",");
  }

  lemma PrintedAll(fields: seq<string>, values: seq<string>)
    requires |fields| == |values|
    ensures PrintedUpTo(fields, values, 0) == ""
    ensures PrintedUpTo(fields, values, |fields|) == Join(Assignments(fields, values), ",")
  {
    assert Assignments(fields, values)[..|fields|] == Assignments(fields, values);
  }

  /** The buffer is too small exactly for an assignment of more than 29 characters. */
  lemma AssignmentTooLong(fields: seq<string>, values: seq<string>)
    ensures UpdateSetText(fields, values) == None
            <==> |fields| == |values| && exists i :: 0 <= i < |fields| && |fields[i] + "=" + values[i]| > 29
  {
  }

  /** The overload for vectors. */
  method CombVecsToSqlUpdateSetStr(fields: seq<string>, values: seq<string>)
    returns (r: Option<string>)
    ensures r == UpdateSetText(fields, values)
  {
    var result := "";
    if |fields| == 0 || |values| == 0 || |fields| != |values| {
      return Some(result);
    }
    PrintedAll(fields, values);
    for i := 0 to |fields|
      invariant result == PrintedUpTo(fields, values, i)
      invariant result == "" <==> i == 0
      invariant forall j :: 0 <= j < i ==> |fields[j]| + 1 + |values[j]| < 30
    {
      PrintOne(fields, values, i);
      var printed := fields[i] + "=" + values[i];
      if |printed| >= 30 {
        return None;
      }
      if result != "" {
        result := result + ",";
      }
      result := result + printed;
    }
    r := Some(result);
  }

  method CombToSqlUpdateSetStr(fieldText: string, valueText: string, sep: string)
    returns (r: Option<string>)
    ensures r == UpdateSetText(Pieces(fieldText, sep), Pieces(valueText, sep))
  {
    var fields := Splite(fieldText, sep);
    var values := Splite(valueText, sep);
    r := CombVecsToSqlUpdateSetStr(fields, values);
  }
}
