/** Which separators a printed list of ints can be split at again. */
module IntSeparators {
  import opened Decimal
  import opened StringTool
  import opened Text

  /** The ints that `CombVecToStr` can print. */
  predicate Printable(n: int) {
    IsInt32(n) && n >= -999_999_999
  }

  predicate AllPrintable(numbers: seq<int>) {
    forall i :: 0 <= i < |numbers| ==> Printable(numbers[i])
  }

  /** Some printed int ends in this text: it is at most nine digits, or a printed int itself. */
  predicate EndsSomeInt(u: string) {
    u != "" && ((AllDigits(u) && |u| <= 9) || (Printable(Atoi(u)) && IntToStr(Atoi(u)) == u))
  }

  /** The separator is the sign, or a part of it that ends some int is followed in it by its own
      beginning, so that the int and a separator after it hold an earlier separator. */
  predicate MeetsInts(sep: string) {
    sep == "-"
    || exists p :: 0 < p <= |sep| && EndsSomeInt(sep[..p]) && sep[p..] == sep[..|sep| - p]
  }

  // ---- Ints with a separator too early ----

  ghost predicate FoundEarly(n: int, sep: string) {
    Find(IntToStr(n) + sep, sep, 0) < |IntToStr(n)|
  }

  lemma MatchWithin(t: string, sep: string, j: nat)
    requires sep != "" && MatchAt(t + sep, sep, j) && j < |t|
    ensures 0 <= Find(t + sep, sep, 0) <= j
  {
    FindIsFirst(t + sep, sep, 0);
  }

  lemma {:induction false} PrefixOfNat(n: nat, i: nat)
    requires 0 < i <= |NatToStr(n)|
    ensures exists q: nat :: q <= n && (n > 0 ==> q > 0) && (i < |NatToStr(n)| ==> q < n)
                             && NatToStr(n)[..i] == NatToStr(q)
    decreases n
  {
    if i == |NatToStr(n)| {
      assert NatToStr(n)[..i] == NatToStr(n);
    } else {
      assert n >= 10;
      PrefixOfNat(n / 10, i);
      assert NatToStr(n)[..i] == NatToStr(n / 10)[..i];
    }
  }

  /** The front of a digit text and its last digit. */
  lemma LastDigit(s: string) returns (front: string, d: nat)
    requires s != "" && AllDigits(s)
    ensures front == s[..|s| - 1] && AllDigits(front) && d < 10 && s == front + [DigitChar(d)]
    ensures DigitsValue(s) == 10 * DigitsValue(front) + d
  {
    front, d := s[..|s| - 1], (s[|s| - 1] - '0') as int;
    assert forall i :: 0 <= i < |front| ==> front[i] == s[i];
    assert DigitChar(d) == s[|s| - 1];
  }

  lemma NextDigit(n: nat, d: nat)
    requires d < 10
    ensures NatToStr(10 * n + d) == (if n == 0 then "" else NatToStr(n)) + [DigitChar(d)]
  {
    assert (10 * n + d) / 10 == n && (10 * n + d) % 10 == d;
  }

  lemma {:induction false} PrintedWithoutLeadingZero(s: string)
    requires s != "" && AllDigits(s) && s[0] != '0'
    ensures NatToStr(DigitsValue(s)) == s && DigitsValue(s) > 0
    decreases |s|
  {
    var front, d := LastDigit(s);
    NextDigit(DigitsValue(front), d);
    if front == "" {
      FirstDigit(s, d);
    } else {
      assert front[0] == s[0];
      PrintedWithoutLeadingZero(front);
    }
  }

  lemma FirstDigit(s: string, d: nat)
    requires d < 10 && s == [DigitChar(d)] && s[0] != '0'
    ensures d > 0
  {
  }

  lemma {:induction false} OneBefore(u: string)
    requires AllDigits(u)
    ensures AllDigits("1" + u) && DigitsValue("1" + u) < 2 * Pow10(|u|)
  {
    var s := "1" + u;
    if u == "" {
      assert s[..0] == "" && s[0] == '1';
    } else {
      var front, d := LastDigit(u);
      OneBefore(front);
      assert s[..|s| - 1] == "1" + front;
      assert Pow10(|u|) == 10 * Pow10(|front|);
    }
  }

  lemma {:induction false} Pow10Grows(k: nat, m: nat)
    requires k <= m
    ensures Pow10(k) <= Pow10(m)
  {
    if k < m {
      Pow10Grows(k, m - 1);
      Pow10Positive(m - 1);
    }
  }

  /** Up to nine digits end the int with a 1 before them. */
  lemma DigitsEndAnInt(u: string) returns (n: int)
    requires AllDigits(u) && |u| <= 9
    ensures Printable(n) && IntToStr(n) == "1" + u
  {
    OneBefore(u);
    n := DigitsValue("1" + u);
    PrintedWithoutLeadingZero("1" + u);
    Pow10Grows(|u|, 9);
    Pow10Values();
    assert "" + NatToStr(n) == NatToStr(n);
  }

  lemma PrintableWidth(n: int)
    requires Printable(n)
    ensures |IntToStr(n)| <= 10
  {
    ElevenByteBuffer(n);
  }

  lemma IntCharacters(n: int)
    ensures var t := IntToStr(n);
            && t != "" && (n < 0 <==> t[0] == '-') && (n < 0 ==> |t| > 1)
            && forall i :: 0 < i < |t| ==> IsDigit(t[i])
  {
    var d := NatToStr(Magnitude(n));
    assert IsDigit(d[0]);
    assert IntToStr(n) == if n < 0 then "-" + d else d;
  }

  // ---- The condition, both ways ----

  /** An end of a printed int. */
  lemma TailEndsInt(n: int, j: nat)
    requires Printable(n) && j < |IntToStr(n)|
    ensures EndsSomeInt(IntToStr(n)[j..])
  {
    var t := IntToStr(n);
    if j == 0 {
      AtoiOfIntToStr(n);
      assert t[0..] == t;
    } else {
      IntCharacters(n);
      PrintableWidth(n);
    }
  }

  /** A part of a printed int that is not at its end is the sign, digits, or an int itself. */
  lemma PartMeetsInts(n: int, j: nat, k: nat)
    requires Printable(n) && j < k < |IntToStr(n)|
    ensures MeetsInts(IntToStr(n)[j..k])
  {
    var t := IntToStr(n);
    var sep := t[j..k];
    IntCharacters(n);
    PrintableWidth(n);
    if sep != "-" {
      assert sep[..|sep|] == sep && sep[|sep|..] == sep[..0];
      if t[j] == '-' {
        assert j == 0 && t == "-" + NatToStr(-n);
        PrefixOfNat(-n, k - 1);
        var q: nat :| 0 < q <= -n && NatToStr(-n)[..k - 1] == NatToStr(q);
        SignedInt(q, sep);
      }
      assert EndsSomeInt(sep[..|sep|]);
    }
  }

  lemma SignedInt(q: nat, sep: string)
    requires 0 < q <= 999_999_999 && sep == "-" + NatToStr(q)
    ensures EndsSomeInt(sep)
  {
    assert IntToStr(0 - q) == sep;
    AtoiOfIntToStr(0 - q);
  }

  /** A separator met inside `t`, or begun there and continued by the separator that follows. */
  lemma MetWithin(t: string, sep: string, j: nat)
    requires MatchAt(t + sep, sep, j) && j < |t|
    ensures var p := |t| - j;
            if p <= |sep| then sep[..p] == t[j..] && sep[p..] == sep[..|sep| - p]
            else sep == t[j..j + |sep|]
  {
    var p, m := |t| - j, |sep|;
    assert (t + sep)[j..j + m] == sep;
    if p <= m {
      assert sep == t[j..] + sep[..m - p];
    } else {
      MatchInPrefix(t, sep, sep, j);
    }
  }

  lemma EarlyMeets(n: int, sep: string)
    requires sep != "" && Printable(n) && FoundEarly(n, sep)
    ensures MeetsInts(sep)
  {
    var t := IntToStr(n);
    SeparatorIsFound(t, sep);
    var j := Find(t + sep, sep, 0);
    MetWithin(t, sep, j);
    if |t| - j <= |sep| {
      TailEndsInt(n, j);
    } else {
      PartMeetsInts(n, j, j + |sep|);
    }
  }

  lemma MeetsIsEarly(sep: string) returns (n: int)
    requires sep != "" && MeetsInts(sep)
    ensures Printable(n) && n != 0 && FoundEarly(n, sep)
  {
    if sep == "-" {
      n := -1;
      assert IntToStr(-1) == "-1";
      assert ("-1" + sep)[0..1] == "-";
      MatchWithin("-1", sep, 0);
    } else {
      var p :| 0 < p <= |sep| && EndsSomeInt(sep[..p]) && sep[p..] == sep[..|sep| - p];
      n := EndOfAnInt(sep[..p]);
      MetAgain(IntToStr(n), sep, p);
      MatchWithin(IntToStr(n), sep, |IntToStr(n)| - p);
    }
  }

  lemma MetAgain(t: string, sep: string, p: nat)
    requires p <= |sep| && p <= |t| && t[|t| - p..] == sep[..p] && sep[p..] == sep[..|sep| - p]
    ensures MatchAt(t + sep, sep, |t| - p)
  {
    var j := |t| - p;
    assert (t + sep)[j..j + |sep|] == t[j..] + sep[..|sep| - p] == sep[..p] + sep[p..];
  }

  lemma EndOfAnInt(u: string) returns (n: int)
    requires EndsSomeInt(u)
    ensures Printable(n) && n != 0 && |u| <= |IntToStr(n)| && IntToStr(n)[|IntToStr(n)| - |u|..] == u
  {
    if AllDigits(u) && |u| <= 9 {
      n := DigitsEndAnInt(u);
      OneBeforeIsNotZero(n, u);
    } else {
      n := Atoi(u);
      assert u[0..] == u;
      assert IntToStr(0) == "0";
    }
  }

  lemma OneBeforeIsNotZero(n: int, u: string)
    requires IntToStr(n) == "1" + u
    ensures n != 0
  {
    assert IntToStr(n)[0] == '1';
    assert IntToStr(0) == "0" && "0"[0] == '0';
  }

  // ---- Splitting ----

  lemma {:induction false} EachSeparated(v: seq<string>, sep: string)
    requires sep != "" && v != []
    requires forall i :: 0 <= i < |v| ==> Find(v[i] + sep, sep, 0) == |v[i]|
    ensures WellSeparated(v, sep)
  {
    if |v| == 1 {
      var t := v[0];
      FindIsFirst(t + sep, sep, 0);
      forall j | 0 <= j < |t| ensures !MatchAt(t, sep, j) {
        if MatchAt(t, sep, j) {
          MatchInPrefix(t, sep, sep, j);
        }
      }
    } else {
      EachSeparated(v[1..], sep);
    }
  }

  lemma SeparatorIsFound(t: string, sep: string)
    ensures 0 <= Find(t + sep, sep, 0) <= |t|
  {
    assert (t + sep)[|t|..|t| + |sep|] == sep;
    FindIsFirst(t + sep, sep, 0);
    assert MatchAt(t + sep, sep, |t|);
  }

  lemma GoodSeparator(numbers: seq<int>, sep: string)
    requires sep != "" && !MeetsInts(sep) && AllPrintable(numbers)
    ensures ParsedInts(Join(IntTexts(numbers), sep), sep) == numbers
  {
    var texts := IntTexts(numbers);
    forall i | 0 <= i < |numbers|
      ensures Find(texts[i] + sep, sep, 0) == |texts[i]| && texts[i] != "" && Atoi(texts[i]) == numbers[i]
    {
      SeparatorIsFound(texts[i], sep);
      if FoundEarly(numbers[i], sep) {
        EarlyMeets(numbers[i], sep);
      }
      IntCharacters(numbers[i]);
      AtoiOfIntToStr(numbers[i]);
    }
    SpliteInvertsCombVecToStr(texts, sep);
    if texts != [] {
      EachSeparated(texts, sep);
    }
  }

  /** A proper beginning of a printed int is another number. */
  lemma BeginningDiffers(n: int, i: nat)
    requires n != 0 && i < |IntToStr(n)|
    ensures Atoi(IntToStr(n)[..i]) != n
  {
    var t, d := IntToStr(n), NatToStr(Magnitude(n));
    if n < 0 {
      assert t == "-" + d;
      if i > 0 {
        assert t[..i] == "-" + d[..i - 1];
        NatBeginningDiffers(Magnitude(n), i - 1);
      }
    } else {
      assert t == d;
      NatBeginningDiffers(n, i);
    }
  }

  lemma NatBeginningDiffers(n: nat, i: nat)
    requires n != 0 && i < |NatToStr(n)|
    ensures Atoi(NatToStr(n)[..i]) != n && Atoi("-" + NatToStr(n)[..i]) != 0 - n
  {
    if i > 0 {
      PrefixOfNat(n, i);
      var q: nat :| q < n && NatToStr(n)[..i] == NatToStr(q);
      AtoiOfDigits(NatToStr(q));
      DigitsValueOfNatToStr(q);
      DigitPrefixOfDigits(NatToStr(q));
    } else {
      assert NatToStr(n)[..0] == "" && "-" + "" == "-";
      assert SkipSpaces("-") == "-" && "-"[1..] == "";
    }
  }

  lemma BadSeparator(n: int, sep: string)
    requires sep != "" && n != 0 && FoundEarly(n, sep)
    ensures ParsedInts(Join(IntTexts([n, n]), sep), sep) != [n, n]
  {
    var t := IntToStr(n);
    var s := t + sep + t;
    assert IntTexts([n, n]) == [t, t];
    assert Join([t, t], sep) == s;
    SeparatorIsFound(t, sep);
    FindIsFirst(s, sep, 0);
    var j := Find(t + sep, sep, 0);
    MatchInPrefix(t + sep, t, sep, j);
    var piece, rest := FirstCut(s, sep);
    assert piece == s[..|piece|] == t[..|piece|];
    BeginningDiffers(n, |piece|);
    FirstPieceIsKept(s, sep, piece, rest);
    assert ParsedInts(s, sep)[0] == Atoi(piece);
  }

  lemma FirstPieceIsKept(s: string, sep: string, piece: string, rest: string)
    requires sep != "" && FullSplit(s, sep) == [piece] + FullSplit(rest, sep)
    ensures Pieces(s, sep) != [] && Pieces(s, sep)[0] == piece
  {
    PiecesDropOne(s, sep);
  }

  /** Splitting and `atoi` give back every list of ints that can be printed exactly when the separator
      does not meet them: "--", "1-" and "0a" are safe, "-", "-5-" and "00" are not. */
  lemma IntListRoundTripIff(sep: string)
    requires sep != ""
    ensures (forall numbers :: AllPrintable(numbers) ==>
               ParsedInts(Join(IntTexts(numbers), sep), sep) == numbers)
            <==> !MeetsInts(sep)
  {
    if MeetsInts(sep) {
      var n := MeetsIsEarly(sep);
      BadSeparator(n, sep);
      assert AllPrintable([n, n]);
    } else {
      forall numbers | AllPrintable(numbers)
        ensures ParsedInts(Join(IntTexts(numbers), sep), sep) == numbers
      {
        GoodSeparator(numbers, sep);
      }
    }
  }
}
