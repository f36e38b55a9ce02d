/** Decimal text of integers: `%d` of sprintf, `atoi`, and the widths the text buffers allow. */
module Decimal {

  predicate IsDigit(c: char) {
    '0' <= c <= '9'
  }

  predicate AllDigits(s: string) {
    forall i :: 0 <= i < |s| ==> IsDigit(s[i])
  }

  function DigitChar(d: nat): (c: char)
    requires d < 10
    ensures IsDigit(c) && (c - '0') as int == d
  {
    '0' + d as char
  }

  function NatToStr(n: nat): (s: string)
    ensures s != "" && AllDigits(s)
  {
    if n < 10 then [DigitChar(n)] else NatToStr(n / 10) + [DigitChar(n % 10)]
  }

  function Magnitude(n: int): nat {
    if n < 0 then -n else n
  }

  function IntToStr(n: int): string {
    (if n < 0 then "-" else "") + NatToStr(Magnitude(n))
  }

  function DigitsValue(s: string): nat
    requires AllDigits(s)
  {
    if s == "" then 0 else 10 * DigitsValue(s[..|s| - 1]) + (s[|s| - 1] - '0') as int
  }

  predicate IsSpace(c: char) {
    c == ' ' || '\t' <= c <= '\r'
  }

  function SkipSpaces(s: string): string {
    if s != "" && IsSpace(s[0]) then SkipSpaces(s[1..]) else s
  }

  function DigitPrefix(s: string): (p: string)
    ensures AllDigits(p)
  {
    if s != "" && IsDigit(s[0]) then [s[0]] + DigitPrefix(s[1..]) else ""
  }

  /** `atoi` wherever its result is representable: spaces, one sign, digits; then it stops. */
  function Atoi(s: string): int {
    var t := SkipSpaces(s);
    if t != "" && t[0] == '-' then 0 - DigitsValue(DigitPrefix(t[1..]))
    else if t != "" && t[0] == '+' then DigitsValue(DigitPrefix(t[1..]))
    else DigitsValue(DigitPrefix(t))
  }

  lemma {:induction false} DigitPrefixOfDigits(s: string)
    requires AllDigits(s)
    ensures DigitPrefix(s) == s
  {
    if s != "" {
      DigitPrefixOfDigits(s[1..]);
    }
  }

  lemma {:induction false} DigitsValueOfNatToStr(n: nat)
    ensures DigitsValue(NatToStr(n)) == n
  {
    if n < 10 {
      assert [DigitChar(n)][..0] == "";
    } else {
      DigitsValueOfNatToStr(n / 10);
      assert NatToStr(n)[..|NatToStr(n / 10)|] == NatToStr(n / 10);
    }
  }

  lemma AtoiOfDigits(t: string)
    requires t != "" && AllDigits(t)
    ensures Atoi(t) == DigitsValue(DigitPrefix(t)) && Atoi("-" + t) == 0 - DigitsValue(DigitPrefix(t))
  {
    assert IsDigit(t[0]);
    assert SkipSpaces(t) == t;
    var negative := "-" + t;
    assert SkipSpaces(negative) == negative && negative[1..] == t;
  }

  lemma AtoiOfIntToStr(n: int)
    ensures Atoi(IntToStr(n)) == n
  {
    var t := NatToStr(Magnitude(n));
    DigitsValueOfNatToStr(Magnitude(n));
    DigitPrefixOfDigits(t);
    AtoiOfDigits(t);
    assert IntToStr(n) == if n < 0 then "-" + t else t;
  }

  lemma {:induction false} PrefixStops(d: string, rest: string)
    requires AllDigits(d) && (rest != "" ==> !IsDigit(rest[0]))
    ensures DigitPrefix(d + rest) == d
  {
    if d == "" {
      assert d + rest == rest;
    } else {
      assert (d + rest)[1..] == d[1..] + rest;
      PrefixStops(d[1..], rest);
    }
  }

  lemma {:induction false} SpacesAreSkipped(spaces: string, t: string)
    requires forall i :: 0 <= i < |spaces| ==> IsSpace(spaces[i])
    requires t != "" ==> !IsSpace(t[0])
    ensures SkipSpaces(spaces + t) == t
  {
    if spaces == "" {
      assert spaces + t == t;
    } else {
      assert (spaces + t)[1..] == spaces[1..] + t;
      SpacesAreSkipped(spaces[1..], t);
    }
  }

  const BLANKS := " \t\n\U{b}\U{c}\r"

  lemma Blank(c: char)
    ensures IsSpace(c) <==> c in BLANKS
  {
    assert BLANKS[0] == ' ' && BLANKS[1] == '\t' && BLANKS[2] == '\n' && BLANKS[3] == '\U{b}'
        && BLANKS[4] == '\U{c}' && BLANKS[5] == '\r';
  }

  /** `atoi` skips blanks, takes one sign and the digits after it, and ignores the rest. */
  lemma AtoiReads(spaces: string, sign: string, d: string, rest: string)
    requires forall i :: 0 <= i < |spaces| ==> spaces[i] in BLANKS
    requires sign == "" || sign == "-" || sign == "+"
    requires AllDigits(d) && (rest != "" ==> !IsDigit(rest[0]))
    requires sign == "" && d == "" && rest != "" ==> rest[0] !in BLANKS && rest[0] != '-' && rest[0] != '+'
    ensures Atoi(spaces + (sign + (d + rest))) == if sign == "-" then 0 - DigitsValue(d) else DigitsValue(d)
  {
    var t := sign + (d + rest);
    PrefixStops(d, rest);
    assert d != "" ==> (d + rest)[0] == d[0] && IsDigit(d[0]);
    assert d == "" ==> d + rest == rest;
    if sign == "" {
      assert t == d + rest;
    } else {
      assert t[0] == sign[0] && t[1..] == d + rest;
    }
    forall i | 0 <= i < |spaces| ensures IsSpace(spaces[i]) {
      Blank(spaces[i]);
    }
    if t != "" {
      Blank(t[0]);
    }
    SpacesAreSkipped(spaces, t);
  }

  lemma IntToStrChars(n: int, c: char)
    requires !IsDigit(c) && c != '-'
    ensures IntToStr(n) != "" && c !in IntToStr(n)
  {
    assert c !in NatToStr(Magnitude(n));
  }

  // ---- Widths ----

  function Pow10(k: nat): nat {
    if k == 0 then 1 else 10 * Pow10(k - 1)
  }

  lemma {:induction false} NatWidth(n: nat, k: nat)
    requires k > 0
    ensures |NatToStr(n)| <= k <==> n < Pow10(k)
    decreases k
  {
    if k == 1 {
      assert Pow10(1) == 10 * Pow10(0);
      assert n >= 10 ==> |NatToStr(n / 10)| >= 1;
    } else {
      NatWidth(n / 10, k - 1);
      assert Pow10(k) == 10 * Pow10(k - 1);
      assert n < 10 ==> n < Pow10(k) by {
        Pow10Positive(k - 1);
      }
    }
  }

  lemma {:induction false} Pow10Positive(k: nat)
    ensures Pow10(k) > 0
  {
    if k > 0 {
      Pow10Positive(k - 1);
    }
  }

  lemma Pow10Values()
    ensures Pow10(3) == 1000 && Pow10(9) == 1_000_000_000 && Pow10(10) == 10_000_000_000
  {
    assert Pow10(3) == 10 * Pow10(2) == 100 * Pow10(1);
    assert Pow10(6) == 10 * Pow10(5) == 100 * Pow10(4) == 1000 * Pow10(3);
    assert Pow10(9) == 10 * Pow10(8) == 100 * Pow10(7) == 1000 * Pow10(6);
    assert Pow10(10) == 10 * Pow10(9);
  }

  predicate IsInt32(n: int) {
    -0x8000_0000 <= n < 0x8000_0000
  }

  /** An 11 byte buffer, one byte of it the terminator, holds exactly the ints above -10^9. */
  lemma ElevenByteBuffer(n: int)
    requires IsInt32(n)
    ensures |IntToStr(n)| < 11 <==> n >= -999_999_999
  {
    Pow10Values();
    if n < 0 {
      NatWidth(-n, 9);
    } else {
      NatWidth(n, 10);
    }
  }

  /** A 12 byte buffer holds every 32-bit int. */
  lemma TwelveByteBuffer(n: int)
    requires IsInt32(n)
    ensures |IntToStr(n)| < 12
  {
    Pow10Values();
    NatWidth(Magnitude(n), 10);
  }
}
