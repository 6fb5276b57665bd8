/** Decimal text of integers: printing, and reading the way std::stoi and std::stoll do. */
module Decimals {
  import opened Wrappers

  predicate IsDigit(c: char) { '0' <= c <= '9' }

  predicate IsSpace(c: char) { c == ' ' || 9 as char <= c <= 13 as char }

  function DigitChar(d: nat): char
    requires d < 10
  {
    ('0' as int + d) as char
  }

  function Digits(n: nat): (s: string)
    ensures |s| > 0 && forall i :: 0 <= i < |s| ==> IsDigit(s[i])
  {
    if n < 10 then [DigitChar(n)] else Digits(n / 10) + [DigitChar(n % 10)]
  }

  /** std::to_string and std::format("{}") on an integer. */
  function ToText(n: int): (s: string)
    ensures |s| > 0
  {
    if n < 0 then "-" + Digits(-n) else Digits(n)
  }

  /** The value of the longest run of digits at the front, after `acc` has been read. */
  function ReadDigits(s: string, acc: nat): nat {
    if s == "" || !IsDigit(s[0]) then acc
    else ReadDigits(s[1..], 10 * acc + (s[0] as int - '0' as int))
  }

  function SkipSpaces(s: string): string {
    if s != "" && IsSpace(s[0]) then SkipSpaces(s[1..]) else s
  }

  /** None where the library throws: no digits, or a value outside [-limit - 1, limit]. */
  function ReadInteger(text: string, limit: int): Option<int> {
    var s := SkipSpaces(text);
    var negative := s != "" && s[0] == '-';
    var body := if s != "" && (s[0] == '-' || s[0] == '+') then s[1..] else s;
    if body == "" || !IsDigit(body[0]) then None
    else
      var magnitude: int := ReadDigits(body, 0);
      var value: int := if negative then -magnitude else magnitude;
      if -limit - 1 <= value <= limit then Some(value) else None
  }

  lemma {:induction false} ReadDigitsAppend(s: string, d: char, acc: nat)
    requires IsDigit(d) && forall i :: 0 <= i < |s| ==> IsDigit(s[i])
    ensures ReadDigits(s + [d], acc) == 10 * ReadDigits(s, acc) + (d as int - '0' as int)
  {
    if s == "" {
      assert (s + [d])[1..] == "";
    } else {
      assert (s + [d])[1..] == s[1..] + [d];
      ReadDigitsAppend(s[1..], d, 10 * acc + (s[0] as int - '0' as int));
    }
  }

  lemma {:induction false} ReadDigitsOfDigits(n: nat)
    ensures ReadDigits(Digits(n), 0) == n
  {
    if n < 10 {
      assert Digits(n)[1..] == "";
    } else {
      ReadDigitsOfDigits(n / 10);
      ReadDigitsAppend(Digits(n / 10), DigitChar(n % 10), 0);
    }
  }

  /** Printing an integer in range and reading it back gives the integer. */
  lemma ReadBack(n: int, limit: int)
    requires -limit - 1 <= n <= limit
    ensures ReadInteger(ToText(n), limit) == Some(n)
  {
    var digits := Digits(if n < 0 then -n else n);
    ReadDigitsOfDigits(if n < 0 then -n else n);
    if n < 0 {
      assert ToText(n)[1..] == digits;
    }
  }

  lemma ToTextInjective(m: int, n: int)
    ensures ToText(m) == ToText(n) ==> m == n
  {
    var limit: int := (if m < 0 then -m else m) + (if n < 0 then -n else n);
    ReadBack(m, limit);
    ReadBack(n, limit);
  }

  /** The notation is decimal: another digit at the end counts the rest ten times. */
  lemma TextIsPositional(n: int, d: nat)
    requires n > 0 && d < 10
    ensures ToText(10 * n + d) == ToText(n) + ["0123456789"[d]]
    ensures ToText(d) == ["0123456789"[d]] && ToText(-n) == "-" + ToText(n)
  {
    assert (10 * n + d) / 10 == n && (10 * n + d) % 10 == d;
  }

  lemma OutOfRangeIsRefused(n: int, limit: nat)
    requires n + limit < -1 || limit < n
    ensures ReadInteger(ToText(n), limit) == None
  {
    var digits := Digits(if n < 0 then -n else n);
    ReadDigitsOfDigits(if n < 0 then -n else n);
    if n < 0 {
      assert ToText(n)[1..] == digits;
    }
  }

  /** Space in front, a plus sign, and anything after the digits make no difference; text without a
      digit at its front is refused. */
  lemma ReadingIsLenient(n: nat, limit: int, after: string)
    requires n <= limit && (after == "" || !IsDigit(after[0]))
    ensures ReadInteger(ToText(n) + after, limit) == Some(n)
    ensures ReadInteger("+" + (ToText(n) + after), limit) == Some(n)
    ensures ReadInteger(" " + (ToText(n) + after), limit) == Some(n)
    ensures !IsSpace('x') ==> ReadInteger("x" + ToText(n), limit) == None
  {
    var text := ToText(n) + after;
    ReadDigitsUpTo(Digits(n), after, 0);
    ReadDigitsOfDigits(n);
    assert text[0] == Digits(n)[0];
    assert ("+" + text)[1..] == text && (" " + text)[1..] == text;
    assert SkipSpaces(text) == text && SkipSpaces(" " + text) == text;
  }

  lemma {:induction false} ReadDigitsUpTo(s: string, after: string, acc: nat)
    requires (forall i :: 0 <= i < |s| ==> IsDigit(s[i])) && (after == "" || !IsDigit(after[0]))
    ensures ReadDigits(s + after, acc) == ReadDigits(s, acc)
  {
    if s == "" {
      assert s + after == after;
    } else {
      assert (s + after)[1..] == s[1..] + after;
      ReadDigitsUpTo(s[1..], after, 10 * acc + (s[0] as int - '0' as int));
    }
  }
}
