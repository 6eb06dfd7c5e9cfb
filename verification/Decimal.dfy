/** Decimal numbers as Rust's integer `FromStr` reads them and `Display` writes them. */
module Decimal {
  import opened Wrappers

  datatype IntType = IntType(lo: int, hi: int)

  const I32 := IntType(-0x8000_0000, 0x7fff_ffff)
  const U32 := IntType(0, 0xffff_ffff)
  const I64 := IntType(-0x8000_0000_0000_0000, 0x7fff_ffff_ffff_ffff)
  const U64 := IntType(0, 0xffff_ffff_ffff_ffff)

  predicate IsDigit(c: char) {
    '0' <= c <= '9'
  }

  predicate AllDigits(s: string) {
    forall c <- s :: IsDigit(c)
  }

  function Value(s: string): (v: int)
    requires AllDigits(s)
    ensures v >= 0
  {
    if s == [] then 0 else
      assert IsDigit(s[|s| - 1]);
      10 * Value(s[..|s| - 1]) + (s[|s| - 1] as int - '0' as int)
  }

  /** A sign may stand in front: `+` always, `-` for signed types. A number out of range is an error. */
  function ParseInt(t: IntType, s: string): Option<int> {
    if s == [] then None else
      var negative := s[0] == '-' && t.lo < 0;
      var digits := if negative || s[0] == '+' then s[1..] else s;
      if digits == [] || !AllDigits(digits) then None else
        var v := if negative then -Value(digits) else Value(digits);
        if t.lo <= v <= t.hi then Some(v) else None
  }

  function Digits(n: nat): string {
    (if n < 10 then [] else Digits(n / 10)) + [('0' as int + n % 10) as char]
  }

  function Print(v: int): string {
    if v < 0 then "-" + Digits(-v) else Digits(v)
  }

  lemma {:induction false} ValueOfDigits(n: nat)
    ensures Digits(n) != [] && AllDigits(Digits(n)) && Value(Digits(n)) == n
  {
    var s := Digits(n);
    if n >= 10 {
      ValueOfDigits(n / 10);
    }
    assert s[..|s| - 1] == if n < 10 then [] else Digits(n / 10);
  }

  lemma {:induction false} ParseMinus(t: IntType, digits: string)
    requires digits != [] && AllDigits(digits)
    ensures ParseInt(t, "-" + digits)
            == if t.lo < 0 && t.lo <= -Value(digits) <= t.hi then Some(-Value(digits)) else None
  {
    var s := "-" + digits;
    assert s[1..] == digits;
    assert s[0] == '-' && s[0] in s;
  }

  lemma {:induction false} ParseDigits(t: IntType, n: nat)
    ensures ParseInt(t, Digits(n)) == if t.lo <= n <= t.hi then Some(n) else None
  {
    var digits := Digits(n);
    ValueOfDigits(n);
    assert IsDigit(digits[0]);
  }

  lemma {:induction false} ParseNegative(t: IntType, v: int, digits: string)
    requires v < 0 && digits != [] && AllDigits(digits) && Value(digits) == -v
    ensures ParseInt(t, "-" + digits) == if t.lo <= v <= t.hi then Some(v) else None
  {
    ParseMinus(t, digits);
  }

  /** Every number is read back from its decimal form if and only if it is in the range of the type; a sign
      that the type does not have is refused with the rest. */
  lemma {:induction false} ParsePrint(t: IntType, v: int)
    ensures ParseInt(t, Print(v)) == if t.lo <= v <= t.hi then Some(v) else None
  {
    if v < 0 {
      ValueOfDigits(-v);
      ParseNegative(t, v, Digits(-v));
    } else {
      ParseDigits(t, v);
    }
  }

  lemma {:induction false} ValueOfLeadingZero(digits: string)
    requires AllDigits(digits)
    ensures AllDigits("0" + digits) && Value("0" + digits) == Value(digits)
  {
    var s := "0" + digits;
    if digits == [] {
      assert s[..0] == [];
    } else {
      assert s[..|s| - 1] == "0" + digits[..|digits| - 1];
      ValueOfLeadingZero(digits[..|digits| - 1]);
    }
  }

  lemma {:induction false} ParsePlus(t: IntType, digits: string)
    requires digits != [] && AllDigits(digits)
    ensures ParseInt(t, "+" + digits) == ParseInt(t, digits)
  {
    assert digits[0] in digits;
    assert ("+" + digits)[1..] == digits;
  }

  lemma {:induction false} ParseZero(t: IntType, digits: string)
    requires digits != [] && AllDigits(digits)
    ensures ParseInt(t, "0" + digits) == ParseInt(t, digits)
  {
    assert digits[0] in digits;
    ValueOfLeadingZero(digits);
  }

  /** A plus sign and leading zeros change nothing. */
  lemma {:induction false} ParsePadded(t: IntType, digits: string)
    requires digits != [] && (forall c <- digits :: '0' <= c <= '9')
    ensures ParseInt(t, "+" + digits) == ParseInt(t, digits) == ParseInt(t, "0" + digits)
    ensures ParseInt(t, "-" + ("0" + digits)) == ParseInt(t, "-" + digits)
  {
    ParsePlus(t, digits);
    ParseZero(t, digits);
    ValueOfLeadingZero(digits);
    ParseMinus(t, digits);
    ParseMinus(t, "0" + digits);
  }

  /** No digit at all, anything but digits behind the first character, any other first character than a
      digit or a sign, and a minus sign where the type has none: all of these are no number. */
  lemma {:induction false} ParseRefuses(t: IntType, s: string)
    requires || s == "" || s == "+" || s == "-"
             || (exists k | 1 <= k < |s| :: !('0' <= s[k] <= '9'))
             || (s[0] !in "+-" && !('0' <= s[0] <= '9'))
             || (s[0] == '-' && t.lo >= 0)
    ensures ParseInt(t, s) == None
  {
    if exists k | 1 <= k < |s| :: !('0' <= s[k] <= '9') {
      var k :| 1 <= k < |s| && !('0' <= s[k] <= '9');
      assert s[k] in s && s[k] in s[1..] && !IsDigit(s[k]) by {
        assert s[1..][k - 1] == s[k];
      }
    } else {
      assert s != [] ==> s[0] in s;
      assert "+-"[0] == '+' && "+-"[1] == '-';
    }
  }

  predicate IsNumberChar(c: char) {
    IsDigit(c) || c == '-'
  }

  lemma PrintChars(v: int)
    ensures Print(v) != [] && forall c <- Print(v) :: IsNumberChar(c)
  {
    ValueOfDigits(if v < 0 then -v else v);
  }
}
