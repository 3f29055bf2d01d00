/** Canonical decimal text for machine integers
    (reference/tg_cdem_abel_artifact_terminal.cpp, lines 222-252; reference/tg_cdem_abel_measured_workload.cpp,
    lines 239-277; reference/tg_cdem_abel_chunk_replay.cpp, lines 39-80). */
module Decimals {
  import opened Outcomes
  import opened MachineWords

  // ---- Digits ---------------------------------------------------------------

  predicate IsDigit(c: char) {
    '0' <= c <= '9'
  }

  function Digit(d: nat): (c: char)
    requires d < 10
    ensures IsDigit(c) && DigitValue(c) == d
  {
    '0' + d as char
  }

  function DigitValue(c: char): (d: nat)
    requires IsDigit(c)
    ensures d < 10
  {
    (c - '0') as nat
  }

  lemma DigitOfValue(c: char)
    requires IsDigit(c)
    ensures Digit(DigitValue(c)) == c
  {
  }

  /** Digits stand for the numbers from 0 up in their own order. */
  lemma DigitOrder(c: char, d: char)
    requires IsDigit(c) && IsDigit(d)
    ensures c < d <==> DigitValue(c) < DigitValue(d)
    ensures DigitValue('0') == 0 && DigitValue('9') == 9
  {
  }

  predicate AllDigits(text: string) {
    forall i | 0 <= i < |text| :: IsDigit(text[i])
  }

  /** No sign, no blank, no superfluous zero. */
  predicate Canonical(text: string) {
    text != [] && AllDigits(text) && (|text| > 1 ==> text[0] != '0')
  }

  function Value(text: string): nat
    requires AllDigits(text)
  {
    if text == [] then 0 else Value(text[..|text| - 1]) * 10 + DigitValue(text[|text| - 1])
  }

  /** The digits of value, none for 0. */
  function Digits(value: nat): (text: string)
    ensures AllDigits(text) && (value > 0 ==> text != [] && text[0] != '0')
  {
    if value == 0 then [] else Digits(value / 10) + [Digit(value % 10)]
  }

  /** The canonical decimal text of a number. */
  function Decimal(value: nat): string {
    if value == 0 then "0" else Digits(value)
  }

  lemma {:induction false} ValueOfDigits(value: nat)
    ensures Value(Digits(value)) == value
  {
    if value == 0 {
    } else {
      ValueOfDigits(value / 10);
      assert Digits(value)[..|Digits(value)| - 1] == Digits(value / 10);
    }
  }

  lemma LastDigit(front: nat, digit: nat)
    requires digit < 10
    ensures (front * 10 + digit) / 10 == front && (front * 10 + digit) % 10 == digit
  {
  }

  lemma {:induction false} DigitsOfValue(text: string)
    requires AllDigits(text) && (text != [] ==> text[0] != '0')
    ensures Digits(Value(text)) == text
    ensures text != [] ==> Value(text) > 0
  {
    if text == [] {
    } else {
      var front := text[..|text| - 1];
      var c := text[|text| - 1];
      DigitsOfValue(front);
      DigitOfValue(c);
      LastDigit(Value(front), DigitValue(c));
      assert text == front + [c];
    }
  }

  /** Printing gives canonical text for the number. */
  lemma ValueOfDecimal(value: nat)
    ensures Canonical(Decimal(value)) && Value(Decimal(value)) == value
  {
    ValueOfDigits(value);
    if value == 0 {
      assert Value("0") == Value("0"[..0]) * 10 + 0;
    }
  }

  /** Canonical text is what printing its value gives. */
  lemma DecimalOfValue(text: string)
    requires Canonical(text)
    ensures Decimal(Value(text)) == text
  {
    if text[0] == '0' {
      assert text == "0";
      ValueOfDecimal(0);
    } else {
      DigitsOfValue(text);
    }
  }

  function Power10(n: nat): nat {
    if n == 0 then 1 else 10 * Power10(n - 1)
  }

  /** THE DECIMAL SYSTEM. A text of digits is its first digit times a power of ten and the rest. */
  lemma {:induction false} LeadingDigit(c: char, rest: string)
    requires IsDigit(c) && AllDigits(rest)
    ensures AllDigits([c] + rest)
    ensures Value([c] + rest) == DigitValue(c) * Power10(|rest|) + Value(rest)
  {
    var text := [c] + rest;
    if rest == [] {
      assert text[..|text| - 1] == [];
    } else {
      var front, last := rest[..|rest| - 1], rest[|rest| - 1];
      LeadingDigit(c, front);
      assert text[..|text| - 1] == [c] + front;
      ShiftOnce(DigitValue(c), Power10(|front|), Value(front), DigitValue(last));
    }
  }

  lemma ShiftOnce(digit: nat, weight: nat, front: nat, last: nat)
    ensures (digit * weight + front) * 10 + last == digit * (10 * weight) + (front * 10 + last)
  {
  }

  /** A minus sign stands in front of the magnitude exactly for a negative number. */
  lemma SignShown(value: int)
    ensures SignedDecimal(value) != "" && (SignedDecimal(value)[0] == '-' <==> value < 0)
    ensures var magnitude := if value < 0 then SignedDecimal(value)[1..] else SignedDecimal(value);
      Canonical(magnitude) && Value(magnitude) == if value < 0 then -value else value
  {
    ValueOfDecimal(if value < 0 then -value else value);
  }

  lemma DecimalInjective(a: nat, b: nat)
    requires Decimal(a) == Decimal(b)
    ensures a == b
  {
    ValueOfDecimal(a);
    ValueOfDecimal(b);
  }

  // ---- Printing -------------------------------------------------------------

  function Reversed(s: string): string {
    if s == [] then [] else Reversed(s[1..]) + [s[0]]
  }

  lemma {:induction false} ReversedAppend(s: string, c: char)
    ensures Reversed(s + [c]) == [c] + Reversed(s)
  {
    if s == [] {
    } else {
      ReversedAppend(s[1..], c);
      assert (s + [c])[1..] == s[1..] + [c];
    }
  }

  lemma PushDigit(rest: nat, pushed: string)
    requires rest != 0
    ensures Digits(rest) + Reversed(pushed) == Digits(rest / 10) + Reversed(pushed + [Digit(rest % 10)])
  {
    ReversedAppend(pushed, Digit(rest % 10));
  }

  /** Push the digits from the least significant one, then reverse. */
  method ToString(value: nat) returns (text: string)
    ensures text == Decimal(value)
  {
    if value == 0 {
      return "0";
    }
    var rest := value;
    var pushed := "";
    while rest != 0
      invariant Digits(value) == Digits(rest) + Reversed(pushed)
    {
      PushDigit(rest, pushed);
      pushed := pushed + [Digit(rest % 10)];
      rest := rest / 10;
    }
    text := Reversed(pushed);
  }

  function SignedDecimal(value: int): string {
    if value >= 0 then Decimal(value) else "-" + Decimal(-value)
  }

  /** The magnitude is formed without negating the least signed value. */
  method ToSignedString(value: int) returns (text: string)
    requires Signed128(value)
    ensures text == SignedDecimal(value)
  {
    if value >= 0 {
      text := ToString(value);
    } else {
      var almost := -(value + 1);
      assert 0 <= almost < INT128_LIMIT;
      text := ToString(almost + 1);
      text := "-" + text;
    }
  }

  // ---- Parsing --------------------------------------------------------------

  /** What a parser of numbers up to maximum must answer. */
  function Parsed(text: string, maximum: nat): Option<nat> {
    if Canonical(text) && Value(text) <= maximum then Some(Value(text)) else None
  }

  /** The overflow guard is exact. */
  lemma GuardExact(result: nat, digit: nat, maximum: nat)
    requires digit < 10 && maximum >= 9
    ensures result > (maximum - digit) / 10 <==> result * 10 + digit > maximum
  {
  }

  lemma {:induction false} PrefixValue(text: string, i: nat)
    requires i <= |text| && AllDigits(text)
    ensures AllDigits(text[..i]) && Value(text[..i]) <= Value(text)
    decreases |text|
  {
    if i == |text| {
      assert text[..i] == text;
    } else {
      var front := text[..|text| - 1];
      PrefixValue(front, i);
      assert front[..i] == text[..i];
    }
  }

  lemma ValueStep(text: string, i: nat)
    requires i < |text| && AllDigits(text[..i]) && IsDigit(text[i])
    ensures AllDigits(text[..i + 1])
    ensures Value(text[..i + 1]) == Value(text[..i]) * 10 + DigitValue(text[i])
  {
    assert text[..i + 1] == text[..i] + [text[i]];
    assert text[..i + 1][..i] == text[..i];
  }

  method ParseUnsigned(text: string, maximum: nat) returns (value: Option<nat>)
    requires maximum >= 9
    ensures value == Parsed(text, maximum)
  {
    if text == [] || (|text| > 1 && text[0] == '0') {
      return None;
    }
    var result := 0;
    for i := 0 to |text|
      invariant AllDigits(text[..i]) && result == Value(text[..i]) && result <= maximum
    {
      if !IsDigit(text[i]) {
        return None;
      }
      var digit := DigitValue(text[i]);
      ValueStep(text, i);
      GuardExact(result, digit, maximum);
      if result > (maximum - digit) / 10 {
        if AllDigits(text) { PrefixValue(text, i + 1); }
        return None;
      }
      result := result * 10 + digit;
    }
    assert text[..|text|] == text;
    value := Some(result);
  }

  /** PARSE UNDOES PRINT, PRINT UNDOES PARSE: the accepted texts are exactly the printed numbers in range. */
  lemma ParsedExactly(text: string, maximum: nat, value: nat)
    ensures Parsed(text, maximum) == Some(value) <==> text == Decimal(value) && value <= maximum
  {
    ValueOfDecimal(value);
    if Canonical(text) { DecimalOfValue(text); }
  }

  /** What a parser of signed numbers with at most `bound` below zero must answer. */
  function ParsedSigned(text: string, bound: nat): Option<int>
    requires bound > 0
  {
    if text != [] && text[0] == '-' then
      var magnitude := Parsed(text[1..], bound);
      if magnitude.Some? && magnitude.value > 0 then Some(-(magnitude.value as int)) else None
    else
      var magnitude := Parsed(text, bound - 1);
      if magnitude.Some? then Some(magnitude.value) else None
  }

  lemma SignOfText(text: string, value: int)
    ensures text == SignedDecimal(value) <==>
      if text != [] && text[0] == '-' then value < 0 && text[1..] == Decimal(-value)
      else value >= 0 && text == Decimal(value)
  {
    ValueOfDecimal(if value >= 0 then value else -value);
    if value < 0 && text != [] && text[0] == '-' && text[1..] == Decimal(-value) {
      assert text == "-" + text[1..];
    }
  }

  /** PARSE UNDOES PRINT, PRINT UNDOES PARSE, for signed numbers down to the least one. */
  lemma ParsedSignedExactly(text: string, bound: nat, value: int)
    requires bound > 0
    ensures ParsedSigned(text, bound) == Some(value) <==>
      text == SignedDecimal(value) && -(bound as int) <= value < bound
  {
    SignOfText(text, value);
    if text != [] && text[0] == '-' {
      NegativeExactly(text, bound, value);
    } else if value >= 0 {
      ParsedExactly(text, bound - 1, value);
    }
  }

  lemma NegativeExactly(text: string, bound: nat, value: int)
    requires bound > 0 && text != [] && text[0] == '-'
    ensures ParsedSigned(text, bound) == Some(value) <==>
      value < 0 && text[1..] == Decimal(-value) && -(bound as int) <= value
  {
    if value < 0 { ParsedExactly(text[1..], bound, -value); }
  }

  lemma ParsedZero(text: string)
    requires Canonical(text)
    ensures Value(text) == 0 <==> text == "0"
  {
    DecimalOfValue(text);
    ValueOfDecimal(0);
  }

  method ParseSigned128(text: string) returns (value: Option<int>)
    ensures value == ParsedSigned(text, INT128_LIMIT)
  {
    var negative := text != [] && text[0] == '-';
    var magnitude := if negative then text[1..] else text;
    if Canonical(magnitude) { ParsedZero(magnitude); }
    if magnitude == [] || (negative && magnitude == "0") {
      return None;
    }
    var parsed := ParseUnsigned(magnitude, MAX_128);
    if parsed.None? {
      return None;
    }
    if (!negative && parsed.value > INT128_LIMIT - 1) || (negative && parsed.value > INT128_LIMIT) {
      return None;
    }
    value := Some(if negative then -(parsed.value - 1) - 1 else parsed.value);
  }

  method ParseInt64(text: string) returns (value: Option<int>)
    ensures value == ParsedSigned(text, INT64_LIMIT)
  {
    var parsed := ParseSigned128(text);
    if parsed.None? || parsed.value < -(INT64_LIMIT as int) || parsed.value > INT64_LIMIT - 1 {
      return None;
    }
    value := parsed;
  }

  lemma SignedDecimalInjective(a: int, b: int)
    requires SignedDecimal(a) == SignedDecimal(b)
    ensures a == b
  {
    SignOfText(SignedDecimal(a), a);
    SignOfText(SignedDecimal(a), b);
    if a < 0 {
      DecimalInjective(-a, -b);
    } else {
      DecimalInjective(a, b);
    }
  }

  // ---- The replayer's parsers -----------------------------------------------

  /** std::from_chars in base 10 on an unsigned type: the longest run of digits is matched; there is a value
      if it is not empty and in range. */
  method FromChars(text: string, maximum: nat) returns (value: Option<nat>, matched: nat)
    ensures matched <= |text| && AllDigits(text[..matched]) && (matched < |text| ==> !IsDigit(text[matched]))
    ensures value ==
      if matched > 0 && Value(text[..matched]) <= maximum then Some(Value(text[..matched])) else None
  {
    matched := 0;
    var result := 0;
    while matched < |text| && IsDigit(text[matched])
      invariant matched <= |text| && AllDigits(text[..matched]) && result == Value(text[..matched])
    {
      ValueStep(text, matched);
      result := result * 10 + DigitValue(text[matched]);
      matched := matched + 1;
    }
    value := if matched > 0 && result <= maximum then Some(result) else None;
  }

  lemma WholeMatch(text: string, matched: nat)
    requires matched <= |text| && AllDigits(text[..matched]) && (matched < |text| ==> !IsDigit(text[matched]))
    ensures AllDigits(text) <==> matched == |text|
    ensures matched == |text| ==> text[..matched] == text
  {
    if matched == |text| {
      assert text[..matched] == text;
    }
  }

  method ParseUint64(text: string) returns (r: Option<nat>)
    ensures r == Parsed(text, MAX_64)
  {
    if text == [] || text[0] == '+' || (|text| > 1 && text[0] == '0') {
      return None;
    }
    var value, matched := FromChars(text, MAX_64);
    WholeMatch(text, matched);
    r := if matched == |text| then value else None;
  }

  /** On a signed type a leading minus is matched too. */
  method ParseSignedArgument(text: string) returns (r: Option<int>)
    ensures r == ParsedSigned(text, INT64_LIMIT)
  {
    if text == [] || text[0] == '+' {
      return None;
    }
    var negative := text[0] == '-';
    var magnitude := if negative then text[1..] else text;
    if Canonical(magnitude) { ParsedZero(magnitude); }
    if magnitude == [] || (|magnitude| > 1 && magnitude[0] == '0') || (negative && magnitude == "0") {
      return None;
    }
    var value, matched := FromChars(magnitude, if negative then INT64_LIMIT else INT64_LIMIT - 1);
    WholeMatch(magnitude, matched);
    if value.None? || matched != |magnitude| {
      return None;
    }
    r := Some(if negative then -(value.value as int) else value.value);
  }
}
