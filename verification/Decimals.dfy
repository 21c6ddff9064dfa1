/** Decimal text: what formatting an integer produces and what Python's `int` accepts. */
module Decimals {
  import opened Prelude

  function DigitChar(d: nat): char
    requires d < 10
  {
    ['0', '1', '2', '3', '4', '5', '6', '7', '8', '9'][d]
  }

  function DigitValue(c: char): nat {
    if '0' <= c <= '9' then c as nat - '0' as nat else 0
  }

  function Decimal(n: nat): string {
    if n < 10 then [DigitChar(n)] else Decimal(n / 10) + [DigitChar(n % 10)]
  }

  function Value(s: string): nat {
    if s == [] then 0 else 10 * Value(s[..|s| - 1]) + DigitValue(s[|s| - 1])
  }

  lemma {:induction false} DecimalValue(n: nat)
    ensures Value(Decimal(n)) == n
  {
    if n < 10 {
      assert Decimal(n)[..0] == [];
    } else {
      DecimalValue(n / 10);
      assert Decimal(n)[..|Decimal(n)| - 1] == Decimal(n / 10);
    }
  }

  lemma {:induction false} DecimalShape(n: nat)
    ensures Decimal(n) != []
    ensures forall i :: 0 <= i < |Decimal(n)| ==> IsDigit(Decimal(n)[i])
  {
    if n >= 10 {
      DecimalShape(n / 10);
    }
  }

  predicate IsDigit(c: char) {
    '0' <= c <= '9'
  }

  /** ASCII whitespace, which `int` ignores around the number. */
  predicate IsBlank(c: char) {
    c in {' ', '\t', '\n', '\r', '\U{000b}', '\U{000c}'}
  }

  function Trim(s: string): string {
    if s == [] then s
    else if IsBlank(s[0]) then Trim(s[1..])
    else if IsBlank(s[|s| - 1]) then Trim(s[..|s| - 1])
    else s
  }

  /** Digits with single underscores between them. */
  function Digits(s: string): Option<nat> {
    if s == [] || !IsDigit(s[|s| - 1]) then None
    else if |s| == 1 then Some(DigitValue(s[0]))
    else
      var front := s[..|s| - 1];
      var rest := Digits(if front[|front| - 1] == '_' then front[..|front| - 1] else front);
      if rest.None? then None else Some(10 * rest.value + DigitValue(s[|s| - 1]))
  }

  /** `int(text)`. */
  function PyInt(s: string): Option<int> {
    var t := Trim(s);
    var signed := t != [] && t[0] in {'+', '-'};
    var magnitude := Digits(if signed then t[1..] else t);
    if magnitude.None? then None
    else
      var v: int := magnitude.value;
      Some(if signed && t[0] == '-' then -v else v)
  }

  lemma {:induction false} OneMoreDigit(front: string, v: nat, d: nat)
    requires d < 10 && front != [] && IsDigit(front[|front| - 1]) && Digits(front) == Some(v)
    ensures Digits(front + [DigitChar(d)]) == Some(10 * v + d)
  {
    var s := front + [DigitChar(d)];
    assert s[..|s| - 1] == front && s[|s| - 1] == DigitChar(d);
    assert DigitValue(DigitChar(d)) == d;
  }

  lemma {:induction false} DigitsOfDecimal(n: nat)
    ensures Digits(Decimal(n)) == Some(n)
  {
    if n >= 10 {
      DigitsOfDecimal(n / 10);
      DecimalShape(n / 10);
      OneMoreDigit(Decimal(n / 10), n / 10, n % 10);
    }
  }

  /** Digits at both ends, and every underscore stands between two digits. */
  predicate Grouped(s: string) {
    && s != [] && '0' <= s[0] <= '9' && '0' <= s[|s| - 1] <= '9'
    && forall i :: 0 <= i < |s| - 1 ==> ('0' <= s[i] <= '9' || (s[i] == '_' && '0' <= s[i + 1] <= '9'))
  }

  function Ungrouped(s: string): string {
    if s == [] then [] else Ungrouped(s[..|s| - 1]) + (if s[|s| - 1] == '_' then [] else [s[|s| - 1]])
  }

  lemma {:induction false} GroupedStep(s: string)
    requires |s| > 1 && IsDigit(s[|s| - 1])
    ensures var front := s[..|s| - 1];
            Grouped(s) <==> Grouped(if front[|front| - 1] == '_' then front[..|front| - 1] else front)
  {
    var front := s[..|s| - 1];
    var shorter := if front[|front| - 1] == '_' then front[..|front| - 1] else front;
    if Grouped(s) {
      assert shorter != [] && shorter[0] == s[0];
      assert IsDigit(s[|shorter| - 1]);
      forall i | 0 <= i < |shorter| - 1 ensures '0' <= shorter[i] <= '9' || (shorter[i] == '_' && '0' <= shorter[i + 1] <= '9') {
        assert shorter[i] == s[i] && shorter[i + 1] == s[i + 1];
      }
    }
    if Grouped(shorter) {
      forall i | 0 <= i < |s| - 1 ensures '0' <= s[i] <= '9' || (s[i] == '_' && '0' <= s[i + 1] <= '9') {
        if i < |shorter| - 1 {
          assert shorter[i] == s[i] && shorter[i + 1] == s[i + 1];
        }
      }
    }
  }

  lemma {:induction false} UngroupedStep(s: string)
    requires |s| > 1 && IsDigit(s[|s| - 1])
    ensures var front := s[..|s| - 1];
            Value(Ungrouped(s)) == 10 * Value(Ungrouped(if front[|front| - 1] == '_' then front[..|front| - 1] else front)) + DigitValue(s[|s| - 1])
  {
    var front, u := s[..|s| - 1], Ungrouped(s);
    assert u == Ungrouped(front) + [s[|s| - 1]] && u[..|u| - 1] == Ungrouped(front);
    assert Value(u) == 10 * Value(u[..|u| - 1]) + DigitValue(u[|u| - 1]);
    if front[|front| - 1] == '_' {
      assert Ungrouped(front) == Ungrouped(front[..|front| - 1]) + [];
      assert Ungrouped(front) == Ungrouped(front[..|front| - 1]);
    }
  }

  /** A number is read exactly if it is grouped digits, and its value is that of the digits alone. */
  lemma {:induction false} DigitsExactly(s: string)
    ensures Digits(s).Some? <==> Grouped(s)
    ensures Digits(s).Some? ==> Digits(s).value == Value(Ungrouped(s))
  {
    if |s| > 1 && IsDigit(s[|s| - 1]) {
      var front := s[..|s| - 1];
      DigitsExactly(if front[|front| - 1] == '_' then front[..|front| - 1] else front);
      GroupedStep(s);
      UngroupedStep(s);
    } else if |s| == 1 {
      assert s[..0] == [] && Ungrouped(s[..0]) == [];
      assert IsDigit(s[0]) ==> Ungrouped(s) == s && Value(s) == 10 * Value(s[..0]) + DigitValue(s[0]);
    }
  }

  lemma {:induction false} TrimIgnoresBlanks(before: string, s: string, after: string)
    requires (forall i :: 0 <= i < |before| ==> before[i] in " \t\n\r\U{000b}\U{000c}")
    requires (forall i :: 0 <= i < |after| ==> after[i] in " \t\n\r\U{000b}\U{000c}")
    requires s != [] && !IsBlank(s[0]) && !IsBlank(s[|s| - 1])
    ensures Trim(before + s + after) == s
    decreases |before| + |after|
  {
    var t := before + s + after;
    if before != [] {
      assert t[0] == before[0];
      assert t[1..] == before[1..] + s + after;
      TrimIgnoresBlanks(before[1..], s, after);
    } else if after != [] {
      assert t == s + after;
      assert t[0] == s[0] && t[|t| - 1] == after[|after| - 1];
      assert t[..|t| - 1] == s + after[..|after| - 1] == before + s + after[..|after| - 1];
      TrimIgnoresBlanks(before, s, after[..|after| - 1]);
    } else {
      assert t == s;
    }
  }

  /** `int` reads grouped digits with an optional sign and any blanks around. */
  lemma PyIntReads(before: string, sign: string, digits: string, after: string)
    requires (forall i :: 0 <= i < |before| ==> before[i] in " \t\n\r\U{000b}\U{000c}")
    requires (forall i :: 0 <= i < |after| ==> after[i] in " \t\n\r\U{000b}\U{000c}")
    requires sign == "" || sign == "+" || sign == "-"
    requires Grouped(digits)
    ensures var v: int := Value(Ungrouped(digits)); PyInt(before + (sign + digits) + after) == Some(if sign == "-" then -v else v)
  {
    var t := sign + digits;
    assert t[|t| - 1] == digits[|digits| - 1];
    TrimIgnoresBlanks(before, t, after);
    DigitsExactly(digits);
    ReadTrimmed(before + t + after, sign, digits);
  }

  lemma ReadTrimmed(s: string, sign: string, digits: string)
    requires Trim(s) == sign + digits && (sign == "" || sign == "+" || sign == "-")
    requires digits != [] && IsDigit(digits[0]) && Digits(digits).Some?
    ensures PyInt(s) == Some(if sign == "-" then -(Digits(digits).value as int) else Digits(digits).value)
  {
    var t := sign + digits;
    if sign == "" {
      assert t == digits;
    } else {
      assert t[0] == sign[0] && t[1..] == digits;
    }
  }

  /** It reads nothing else. */
  lemma PyIntReadsOnly(s: string)
    requires PyInt(s).Some?
    ensures var t := Trim(s); t != [] && Grouped(if t[0] in {'+', '-'} then t[1..] else t)
  {
    var t := Trim(s);
    DigitsExactly(if t != [] && t[0] in {'+', '-'} then t[1..] else t);
  }

  /** Formatting and parsing agree. */
  lemma PyIntOfDecimal(n: nat)
    ensures PyInt(Decimal(n)) == Some(n)
  {
    DecimalShape(n);
    DigitsOfDecimal(n);
    var s := Decimal(n);
    assert IsDigit(s[0]) && IsDigit(s[|s| - 1]);
    assert Trim(s) == s;
  }
}
