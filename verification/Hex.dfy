// Hexadecimal numbers as std::stoull(text, nullptr, 16) reads them.
module Hex {
  import opened Bits
  import opened Text

  datatype Number = Value(value: Word) | InvalidArgument | OutOfRange

  predicate IsHex(c: char) {
    '0' <= c <= '9' || 'a' <= c <= 'f' || 'A' <= c <= 'F'
  }

  function Digit(c: char): (d: nat)
    requires IsHex(c)
    ensures d < 16
  {
    if c <= '9' then c as int - '0' as int
    else if c <= 'F' then c as int - 'A' as int + 10
    else c as int - 'a' as int + 10
  }

  /** The sixteen digits in either case, in the order of their values. */
  lemma DigitTable(c: char)
    ensures IsHex(c) <==> c in "0123456789abcdef" || c in "0123456789ABCDEF"
    ensures IsHex(c) ==> c == "0123456789abcdef"[Digit(c)] || c == "0123456789ABCDEF"[Digit(c)]
  {
  }

  ghost predicate AllHex(s: string) {
    forall i :: 0 <= i < |s| ==> IsHex(s[i])
  }

  /** The value of a string of digits, most significant first. */
  function DigitsValue(s: string): nat
    requires AllHex(s)
  {
    if s == "" then 0 else 16 * DigitsValue(s[..|s| - 1]) + Digit(s[|s| - 1])
  }

  /** The longest prefix made of digits. */
  function LeadingDigits(s: string): (r: string)
    ensures AllHex(r)
  {
    if s == "" || !IsHex(s[0]) then "" else [s[0]] + LeadingDigits(s[1..])
  }

  function SkipSpaces(s: string): string {
    if s != "" && IsSpace(s[0]) then SkipSpaces(s[1..]) else s
  }

  function SkipPrefix(s: string): string {
    if |s| >= 3 && s[0] == '0' && (s[1] == 'x' || s[1] == 'X') && IsHex(s[2]) then s[2..] else s
  }

  function Signed(negative: bool, digits: string): Number
    requires AllHex(digits)
  {
    if digits == "" then InvalidArgument
    else
      var v := DigitsValue(digits);
      if v >= TWO_TO_THE_64 then OutOfRange
      else if negative && v > 0 then Value(TWO_TO_THE_64 - v)
      else Value(v)
  }

  /** Spaces, a sign and a 0x prefix may come first; a negative number wraps around. */
  function Stoull(s: string): Number {
    var t := SkipSpaces(s);
    var negative := t != "" && t[0] == '-';
    var u := if t != "" && (t[0] == '-' || t[0] == '+') then t[1..] else t;
    Signed(negative, LeadingDigits(SkipPrefix(u)))
  }

  // ----- what is read, and what is not -----

  ghost predicate AllSpaces(s: string) {
    forall i :: 0 <= i < |s| ==> IsSpace(s[i])
  }

  /** The text does not go on with a digit. */
  ghost predicate DigitsEnd(rest: string) {
    rest == "" || !IsHex(rest[0])
  }

  lemma {:induction false} SpacesSkipped(spaces: string, s: string)
    requires AllSpaces(spaces) && (s == "" || !IsSpace(s[0]))
    ensures SkipSpaces(spaces + s) == s
  {
    if spaces == "" {
      assert spaces + s == s;
    } else {
      assert (spaces + s)[1..] == spaces[1..] + s;
      SpacesSkipped(spaces[1..], s);
    }
  }

  lemma {:induction false} DigitsTaken(digits: string, rest: string)
    requires AllHex(digits) && DigitsEnd(rest)
    ensures LeadingDigits(digits + rest) == digits
  {
    if digits == "" {
      assert digits + rest == rest;
    } else {
      assert (digits + rest)[1..] == digits[1..] + rest;
      DigitsTaken(digits[1..], rest);
    }
  }

  /** What follows the blanks: a sign, and the rest. */
  lemma SignTaken(spaces: string, sign: string, s: string)
    requires AllSpaces(spaces) && sign in ["", "+", "-"]
    requires sign == "" ==> s == "" || (s[0] != '+' && s[0] != '-' && !IsSpace(s[0]))
    ensures Stoull(spaces + sign + s) == Signed(sign == "-", LeadingDigits(SkipPrefix(s)))
  {
    var t := sign + s;
    assert spaces + sign + s == spaces + t;
    SpacesSkipped(spaces, t);
    if sign == "" { assert t == s; } else { assert t[1..] == s; }
  }

  /** Blanks, a sign, a prefix and digits, with anything but a digit behind: the number the digits spell, negated
      modulo 2^64 after a minus sign, unless it has no place in 64 bits. */
  lemma StoullReads(spaces: string, sign: string, prefix: string, digits: string, rest: string)
    requires AllSpaces(spaces) && sign in ["", "+", "-"] && prefix in ["", "0x", "0X"]
    requires AllHex(digits) && digits != "" && DigitsEnd(rest)
    requires prefix == "" ==> SkipPrefix(digits + rest) == digits + rest
    ensures var v := DigitsValue(digits);
            Stoull(spaces + sign + (prefix + (digits + rest))) ==
              if v >= 0x1_0000_0000_0000_0000 then OutOfRange
              else if sign == "-" && v > 0 then Value(0x1_0000_0000_0000_0000 - v)
              else Value(v)
  {
    assert Stoull(spaces + sign + (prefix + (digits + rest))) == Signed(sign == "-", digits) by {
      PrefixSkipped(prefix, digits + rest);
      SignTaken(spaces, sign, prefix + (digits + rest));
      DigitsTaken(digits, rest);
    }
  }

  lemma PrefixSkipped(prefix: string, s: string)
    requires prefix in ["", "0x", "0X"] && s != "" && IsHex(s[0])
    requires prefix == "" ==> SkipPrefix(s) == s
    ensures IsHex((prefix + s)[0]) && SkipPrefix(prefix + s) == s
  {
    if prefix == "" {
      assert prefix + s == s;
    } else {
      assert (prefix + s)[2] == s[0] && (prefix + s)[2..] == s;
    }
  }

  /** A prefix counts only before a digit. */
  lemma PrefixTaken(s: string)
    ensures SkipPrefix(s) != s <==> |s| >= 3 && s[..2] in ["0x", "0X"] && IsHex(s[2])
    ensures SkipPrefix(s) != s ==> SkipPrefix(s) == s[2..]
  {
    if |s| >= 3 {
      assert s[..2] == [s[0], s[1]];
      assert |s[2..]| == |s| - 2;
    }
  }

  /** Without a digit where one is due, there is no number. */
  lemma StoullRejects(spaces: string, sign: string, rest: string)
    requires AllSpaces(spaces) && sign in ["", "+", "-"] && DigitsEnd(rest)
    requires sign == "" ==> rest == "" || (rest[0] != '+' && rest[0] != '-' && !IsSpace(rest[0]))
    ensures Stoull(spaces + sign + rest) == InvalidArgument
  {
    SignTaken(spaces, sign, rest);
  }

  // ----- plain digit strings -----

  lemma {:induction false} LeadingDigitsAll(s: string)
    requires AllHex(s)
    ensures LeadingDigits(s) == s
  {
    if s != "" { LeadingDigitsAll(s[1..]); }
  }

  lemma SixteenFold(n: nat)
    ensures Pow2(n + 4) == 16 * Pow2(n)
  {
    assert Pow2(n + 2) == 4 * Pow2(n);
  }

  lemma {:induction false} DigitsBound(s: string)
    requires AllHex(s)
    ensures DigitsValue(s) < Pow2(4 * |s|)
  {
    if s != "" {
      DigitsBound(s[..|s| - 1]);
      SixteenFold(4 * (|s| - 1));
    }
  }

  lemma DigitsFitWord(s: string)
    requires AllHex(s) && |s| <= 16
    ensures DigitsValue(s) < TWO_TO_THE_64
  {
    DigitsBound(s);
    Pow2Monotone(4 * |s|, 64);
    Pow2Values();
  }

  lemma NothingToSkip(s: string)
    requires AllHex(s) && s != ""
    ensures SkipSpaces(s) == s && s[0] != '-' && s[0] != '+' && SkipPrefix(s) == s
  {
    assert IsHex(s[0]);
    if |s| >= 2 { assert IsHex(s[1]); }
  }

  lemma StoullOfDigits(s: string)
    requires AllHex(s) && 1 <= |s| <= 16
    ensures DigitsValue(s) < TWO_TO_THE_64 && Stoull(s) == Value(DigitsValue(s))
  {
    DigitsFitWord(s);
    LeadingDigitsAll(s);
    NothingToSkip(s);
  }

  ghost predicate AllZero(s: string) {
    forall c :: c in s ==> c == '0'
  }

  lemma {:induction false} ZeroDigits(s: string)
    requires AllHex(s)
    ensures DigitsValue(s) == 0 <==> AllZero(s)
  {
    if s != "" {
      ZeroDigits(s[..|s| - 1]);
      var front, last := s[..|s| - 1], s[|s| - 1];
      assert s == front + [last];
      assert forall c :: c in s <==> c in front || c == last;
      assert DigitsValue(s) == 16 * DigitsValue(front) + Digit(last);
      assert Digit(last) == 0 <==> last == '0';
      assert last in s;
      if AllZero(s) {
        assert forall c :: c in front ==> c in s;
      }
    }
  }

  /** Reading a group backwards preserves whether it is zero. */
  lemma ZeroBackwards(s: string)
    requires AllHex(s)
    ensures AllHex(Reverse(s)) && (DigitsValue(Reverse(s)) == 0 <==> DigitsValue(s) == 0)
  {
    forall c: char
      ensures c in Reverse(s) <==> c in s
    {
      ReverseMembers(s, c);
    }
    assert forall i :: 0 <= i < |s| ==> Reverse(s)[i] in s;
    ZeroDigits(s);
    ZeroDigits(Reverse(s));
  }

  // ----- printing -----

  function DigitChar(d: nat): (c: char)
    requires d < 16
    ensures IsHex(c) && Digit(c) == d
  {
    if d < 10 then '0' + d as char else 'a' + (d - 10) as char
  }

  /** v as n digits, most significant first. */
  function Print(v: nat, n: nat): (s: string)
    ensures |s| == n && AllHex(s)
  {
    if n == 0 then "" else Print(v / 16, n - 1) + [DigitChar(v % 16)]
  }

  lemma {:induction false} PrintedValue(v: nat, n: nat)
    requires v < Pow2(4 * n)
    ensures DigitsValue(Print(v, n)) == v
  {
    if n > 0 {
      SixteenFold(4 * (n - 1));
      PrintedValue(v / 16, n - 1);
    }
  }
}
