/** Recognising and reading decimal numbers. */
module StrNumber {
  import opened CText
  import opened CTypes
  import opened DecimalText
  import opened StrEdit

  /** An optional minus sign and at least one digit. */
  predicate Numeral(s: string) {
    if s != "" && s[0] == '-' then |s| > 1 && AllDigits(s[1..]) else s != "" && AllDigits(s)
  }

  function NumeralValue(s: string): int
    requires Numeral(s)
  {
    if s[0] == '-' then 0 - ValueOf(s[1..]) else ValueOf(s)
  }

  /** rl_str_isdigit: -1 for no text. The length passes through an int on its way from strlen to the loop bound. */
  method StrIsDigit(str: array?<char>) returns (r: int32)
    requires Ready(str)
    ensures var s := Text(Chars(str));
            && (s == "" ==> r == RL_FAILED)
            && (0 < |s| <= INT_MAX ==> r == if Numeral(s) then RL_TRUE else RL_FALSE)
            && (INT_MAX < |s| < TWO32 ==> r == RL_FALSE)
    ensures var s := Text(Chars(str));
            s == "" ==> r == -1
    ensures var s := Text(Chars(str));
            0 < |s| <= 2147483647 ==> var start := if s[0] == '-' then 1 else 0;
              r == if start < |s| && forall k :: start <= k < |s| ==> '0' <= s[k] <= '9' then 1 else 0
  {
    var empty := IsEmpty(str);
    if empty {
      return RL_FAILED;
    }
    var strlen := StrLen(str);
    ghost var s := Text(str[..]);
    var i := 0;
    var len: nat := Wrap64(ToInt32(strlen));
    LengthThroughInt(strlen);
    NumeralIs(s);
    hide Wrap64, ToInt32, Numeral, Text;
    if str[0] == '-' {
      if len == 1 {
        return RL_FALSE;
      }
      i := 1;
    }
    var ok := OnlyDigits(str, i, len);
    return if ok then RL_TRUE else RL_FALSE;
  }

  /** The loop; a bound beyond the end of the text is never reached, because the terminator is no digit. */
  method OnlyDigits(str: array<char>, from: nat, len: nat) returns (ok: bool)
    requires Terminated(str[..]) && from <= |Text(str[..])|
    ensures var s := Text(str[..]);
            ok <==> (len <= |s| || len <= from) && forall k :: from <= k < len && k < |s| ==> DecimalText.IsDigit(s[k])
  {
    var strlen := StrLen(str);
    ghost var s := Text(str[..]);
    var i := from;
    while i < len
      invariant from <= i <= strlen
      invariant i <= len || i == from
      invariant forall k :: from <= k < i ==> DecimalText.IsDigit(s[k])
    {
      if !DecimalText.IsDigit(str[i]) {
        return false;
      }
      i := i + 1;
    }
    return true;
  }

  lemma LengthThroughInt(n: nat)
    ensures n <= INT_MAX ==> Wrap64(ToInt32(n)) == n
    ensures INT_MAX < n < TWO32 ==> Wrap64(ToInt32(n)) > n
  {
  }

  lemma NumeralIs(s: string)
    ensures Numeral(s) <==>
      var start := if s != "" && s[0] == '-' then 1 else 0;
      start < |s| && forall k :: start <= k < |s| ==> DecimalText.IsDigit(s[k])
  {
  }

  predicate IsSpace(c: char) {
    c == ' ' || ('\t' <= c <= '\r')
  }

  function SkipSpace(s: string): string {
    if s != "" && IsSpace(s[0]) then SkipSpace(s[1..]) else s
  }

  /** The longest prefix of digits. */
  function DigitPrefix(s: string): (r: string)
    ensures AllDigits(r) && r <= s
    ensures r == s || !DecimalText.IsDigit(s[|r|])
  {
    if s == "" || !DecimalText.IsDigit(s[0]) then "" else [s[0]] + DigitPrefix(s[1..])
  }

  /** The number atoi reads (ISO/IEC 9899:2011, section 7.22.1.2): white space, a sign, digits; the rest is ignored. */
  function Atoi(s: string): int {
    var t := SkipSpace(s);
    if t != "" && t[0] == '-' then 0 - ValueOf(DigitPrefix(t[1..]))
    else if t != "" && t[0] == '+' then ValueOf(DigitPrefix(t[1..]))
    else ValueOf(DigitPrefix(t))
  }

  /** rl_str_atoi; None where the standard leaves the result undefined. */
  function StrAtoi(s: string): Option<int32> {
    if s == "" then Some(RL_FAILED)
    else if INT_MIN <= Atoi(s) <= INT_MAX then Some(Atoi(s)) else None
  }

  lemma AllDigitsPrefix(s: string)
    requires AllDigits(s)
    ensures DigitPrefix(s) == s
  {
  }

  /** On numerals atoi reads the number they denote. */
  lemma AtoiReadsNumerals(s: string)
    requires Numeral(s)
    ensures Atoi(s) == NumeralValue(s)
  {
    assert SkipSpace(s) == s;
    if s[0] == '-' {
      AllDigitsPrefix(s[1..]);
    } else {
      assert DecimalText.IsDigit(s[0]);
      AllDigitsPrefix(s);
    }
  }

  /**
    * atoi skips white space, takes one sign at most, and reads the digits that follow; what follows these does not
    * matter, and no digits read as 0. rl_str_atoi adds -1 for no text, and promises nothing beyond an int.
    */
  lemma AtoiExactly(space: string, sign: string, digits: string, rest: string)
    requires forall i :: 0 <= i < |space| ==> space[i] == ' ' || 9 <= space[i] as int <= 13
    requires (sign == "" || sign == "+" || sign == "-") && AllDigits(digits)
    requires rest == "" || !DecimalText.IsDigit(rest[0])
    requires sign == digits == "" && rest != "" ==>
               rest[0] != '+' && rest[0] != '-' && rest[0] != ' ' && !(9 <= rest[0] as int <= 13)
    ensures var s := space + sign + digits + rest;
            var n := if sign == "-" then 0 - ValueOf(digits) else ValueOf(digits);
            && Atoi(s) == n
            && StrAtoi(s) == if s == "" then Some(-1) else if -2147483648 <= n <= 2147483647 then Some(n) else None
  {
    var t := sign + (digits + rest);
    assert space + sign + digits + rest == space + t;
    assert forall i :: 0 <= i < |space| ==> IsSpace(space[i]);
    hide ValueOf, AllDigits, DigitPrefix, Digits, SkipSpace, Atoi, IsSpace;
    SignThenDigits(sign, digits, rest);
    AtoiBehindSpace(space, t, sign, digits);
  }

  lemma AtoiBehindSpace(space: string, t: string, sign: string, digits: string)
    requires (forall i :: 0 <= i < |space| ==> IsSpace(space[i])) && (t == "" || !IsSpace(t[0])) && AllDigits(digits)
    requires DigitPrefix(if t != "" && (t[0] == '+' || t[0] == '-') then t[1..] else t) == digits
    requires t != "" && t[0] == '-' <==> sign == "-"
    ensures Atoi(space + t) == if sign == "-" then 0 - ValueOf(digits) else ValueOf(digits)
  {
    hide ValueOf, AllDigits, DigitPrefix, Digits, IsSpace;
    SpaceIsSkipped(space, t);
    hide SkipSpace;
  }

  lemma SignThenDigits(sign: string, digits: string, rest: string)
    requires (sign == "" || sign == "+" || sign == "-") && AllDigits(digits)
    requires rest == "" || !DecimalText.IsDigit(rest[0])
    requires sign == digits == "" && rest != "" ==>
               rest[0] != '+' && rest[0] != '-' && rest[0] != ' ' && !(9 <= rest[0] as int <= 13)
    ensures var t := sign + (digits + rest);
            && (t == "" || !IsSpace(t[0]))
            && DigitPrefix(if t != "" && (t[0] == '+' || t[0] == '-') then t[1..] else t) == digits
            && (t != "" && t[0] == '-' <==> sign == "-")
  {
    var t := sign + (digits + rest);
    DigitsThenRest(digits, rest);
    hide DigitPrefix;
    if sign == "" {
      assert t == digits + rest;
      assert digits != "" ==> DecimalText.IsDigit(t[0]);
    } else {
      assert t[0] == sign[0] && t[1..] == digits + rest;
    }
  }

  lemma {:induction false} SpaceIsSkipped(space: string, t: string)
    requires (forall i :: 0 <= i < |space| ==> IsSpace(space[i])) && (t == "" || !IsSpace(t[0]))
    ensures SkipSpace(space + t) == t
  {
    if space == "" {
      assert space + t == t;
    } else {
      assert (space + t)[1..] == space[1..] + t;
      SpaceIsSkipped(space[1..], t);
    }
  }

  lemma DecimalIsNumeral(n: int)
    ensures Numeral(Decimal(n)) && NumeralValue(Decimal(n)) == n && '\n' !in Decimal(n) && NUL !in Decimal(n)
  {
    var s := Decimal(n);
    if n < 0 {
      assert s[0] == '-' && s[1..] == Digits(-n);
      ValueOfDigits(-n);
    } else {
      assert DecimalText.IsDigit(s[0]);
      ValueOfDigits(n);
    }
    assert forall i :: 0 <= i < |s| ==> s[i] == '-' || DecimalText.IsDigit(s[i]);
  }

  lemma {:induction false} DigitsThenRest(s: string, rest: string)
    requires AllDigits(s) && (rest == "" || !DecimalText.IsDigit(rest[0]))
    ensures DigitPrefix(s + rest) == s
  {
    if s == "" {
      assert s + rest == rest;
    } else {
      assert (s + rest)[1..] == s[1..] + rest;
      DigitsThenRest(s[1..], rest);
    }
  }

  lemma FirstIsDigit(s: string)
    requires AllDigits(s) && s != ""
    ensures DecimalText.IsDigit(s[0])
  {
  }

  /** atoi reads a printed number back from the front of any text that does not go on with a digit. */
  lemma AtoiReadsPrefix(n: int, rest: string)
    requires rest == "" || !DecimalText.IsDigit(rest[0])
    ensures Atoi(Decimal(n) + rest) == n
  {
    hide Digits, ValueOf, DigitPrefix, AllDigits;
    var s := Decimal(n) + rest;
    var d := Digits(if n < 0 then -n else n);
    assert DecimalText.IsDigit(d[0]) by { FirstIsDigit(d); }
    if n < 0 {
      assert s[0] == '-' && s[1..] == Digits(-n) + rest;
      DigitsThenRest(Digits(-n), rest);
      ValueOfDigits(-n);
    } else {
      assert s[0] == d[0];
      DigitsThenRest(Digits(n), rest);
      ValueOfDigits(n);
    }
    assert SkipSpace(s) == s;
  }

  /** Printing an int with a trailing newline, then cutting the line and reading it, gives the int back. */
  lemma PrintedIntIsReadBack(n: int32)
    ensures CutAt(Decimal(n) + "\n", '\n') == Decimal(n)
    ensures Numeral(Decimal(n)) && |Decimal(n)| <= INT_MAX && StrAtoi(Decimal(n)) == Some(n)
  {
    DecimalIsNumeral(n);
    CutIs(Decimal(n) + "\n", '\n', Decimal(n));
    AtoiReadsNumerals(Decimal(n));
    Int32Length(n);
  }

  /** The way callers read a number from a line: strip the newline, check, convert. */
  method ReadNumber(str: array?<char>) returns (r: Option<int32>)
    requires Ready(str) && |Text(Chars(str))| <= INT_MAX
    requires var line := CutAt(Text(Chars(str)), '\n'); Numeral(line) ==> StrAtoi(line).Some?
    modifies if str == null then {} else {str}
    ensures var line := CutAt(old(Text(Chars(str))), '\n');
            r == if Numeral(line) then Some(NumeralValue(line)) else None
    ensures forall n: int32 :: old(Text(Chars(str))) == Decimal(n) + "\n" ==> r == Some(n)
  {
    ghost var was, s := Chars(str), Text(Chars(str));
    var done := RmLine(str);
    var code := StrIsDigit(str);
    if s != "" {
      assert NUL !in CutAt(s, '\n');
      HoldsText(Chars(str), CutAt(s, '\n'), was);
    }
    if code == RL_TRUE {
      var n := StrLen(str);
      var text := str[..n];
      AtoiReadsNumerals(text);
      r := StrAtoi(text);
    } else {
      r := None;
    }
    forall n: int32 | s == Decimal(n) + "\n" ensures r == Some(n) {
      PrintedIntIsReadBack(n);
    }
  }
}
