/** Numerals: printing in decimal, and strtoull(3). */
module Decimal {
  import opened Arithmetic
  import opened CTypes

  const DIGITS: string := "0123456789"

  function DigitOf(n: nat): (c: char)
    requires n < 10
    ensures '0' <= c <= '9' && c as int == 48 + n
  {
    DIGITS[n]
  }

  /** What %u prints. */
  function Dec(n: nat): (s: string)
    ensures s != []
  {
    if n < 10 then [DigitOf(n)] else Dec(n / 10) + [DigitOf(n % 10)]
  }

  /** The value of a character as a digit; 36 when it is none in any base used here. */
  function DigitValue(c: char): nat {
    if '0' <= c <= '9' then c as int - 48
    else if 'a' <= c <= 'f' then c as int - 87
    else if 'A' <= c <= 'F' then c as int - 55
    else 36
  }

  /** The number that the digits s stand for. */
  function NumberOf(s: string, base: nat): nat {
    if s == [] then 0 else NumberOf(s[..|s| - 1], base) * base + DigitValue(s[|s| - 1])
  }

  predicate AllDigits(s: string, base: nat) {
    forall i :: 0 <= i < |s| ==> DigitValue(s[i]) < base
  }

  lemma {:induction false} DecValue(n: nat)
    ensures NumberOf(Dec(n), 10) == n && AllDigits(Dec(n), 10)
    ensures n > 0 ==> Dec(n)[0] != '0'
  {
    var s := Dec(n);
    if n < 10 {
      assert NumberOf(s[..0], 10) == 0;
    } else {
      DecValue(n / 10);
      assert s[..|s| - 1] == Dec(n / 10);
    }
  }

  /** Equal numerals print equal numbers. */
  lemma DecInjective(m: nat, n: nat)
    requires Dec(m) == Dec(n)
    ensures m == n
  {
    DecValue(m);
    DecValue(n);
  }

  function Pow10(k: nat): (p: nat)
    ensures p > 0
  {
    if k == 0 then 1 else 10 * Pow10(k - 1)
  }

  lemma PowerOfTen()
    ensures Pow10(5) == 100000
  {
    assert Pow10(3) == 1000;
  }

  /** A number prints in at most k digits exactly when it is below 10^k. */
  lemma {:induction false} ShortIff(n: nat, k: nat)
    requires k > 0
    ensures |Dec(n)| <= k <==> n < Pow10(k)
  {
    if n >= 10 {
      if k > 1 {
        ShortIff(n / 10, k - 1);
      } else {
        assert |Dec(n / 10)| >= 1;
      }
    } else {
      PowersGrow(k);
    }
  }

  lemma {:induction false} PowersGrow(k: nat)
    requires k > 0
    ensures Pow10(k) >= 10
  {
    if k > 1 {
      PowersGrow(k - 1);
    }
  }

  /** The end of the longest run of digits from i. */
  function RunEnd(s: string, i: nat, base: nat): (e: nat)
    requires i <= |s|
    ensures i <= e <= |s| && AllDigits(s[i..e], base)
    ensures e < |s| ==> DigitValue(s[e]) >= base
    decreases |s| - i
  {
    if i < |s| && DigitValue(s[i]) < base then
      var e := RunEnd(s, i + 1, base);
      assert s[i..e] == [s[i]] + s[i + 1..e];
      e
    else i
  }

  lemma RunEndIs(s: string, i: nat, base: nat, e: nat)
    requires i <= e <= |s| && AllDigits(s[i..e], base)
    requires e < |s| ==> DigitValue(s[e]) >= base
    ensures RunEnd(s, i, base) == e
    decreases e - i
  {
  }

  function SkipSpaces(s: string, i: nat): (r: nat)
    requires i <= |s|
    ensures i <= r <= |s| && (r < |s| ==> !IsSpace(s[r]))
    ensures forall j :: i <= j < r ==> IsSpace(s[j])
    decreases |s| - i
  {
    if i < |s| && IsSpace(s[i]) then SkipSpaces(s, i + 1) else i
  }

  /** What strtoull yields: the value, how many characters it consumed, and whether it set ERANGE. */
  datatype Converted = Converted(value: nat, used: nat, erange: bool)

  /** The base to use from position j, and where its digits start, for a requested base of 0 or 10. */
  function BaseAt(s: string, j: nat, base: nat): (r: (nat, nat))
    requires j <= |s| && (base == 0 || base == 10)
    ensures r.0 > 0 && j <= r.1 <= |s|
  {
    if base == 10 then (10, j)
    else if j + 2 < |s| && s[j] == '0' && s[j + 1] in "xX" && DigitValue(s[j + 2]) < 16 then (16, j + 2)
    else if j < |s| && s[j] == '0' then (8, j)
    else (10, j)
  }

  function Strtoull(s: string, base: nat): (r: Converted)
    requires base == 0 || base == 10
    ensures r.value <= MAX64 && r.used <= |s|
  {
    var i := SkipSpaces(s, 0);
    var signed := i < |s| && (s[i] == '-' || s[i] == '+');
    var (b, k) := BaseAt(s, if signed then i + 1 else i, base);
    var e := RunEnd(s, k, b);
    if e == k then Converted(0, 0, false)
    else
      var v := NumberOf(s[k..e], b);
      if v > MAX64 then Converted(MAX64, e, true)
      else if signed && s[i] == '-' then Converted((TWO64 - v) % TWO64, e, false)
      else Converted(v, e, false)
  }

  /** Where the digits of s start and end, and so what strtoull makes of it. */
  lemma StrtoullIs(s: string, base: nat, b: nat, e: nat)
    requires (base == 0 || base == 10) && s != [] && !IsSpace(s[0]) && s[0] != '-' && s[0] != '+'
    requires BaseAt(s, 0, base) == (b, 0) && 0 < e <= |s| && AllDigits(s[0..e], b)
    requires e < |s| ==> DigitValue(s[e]) >= b
    requires NumberOf(s[0..e], b) <= MAX64
    ensures Strtoull(s, base) == Converted(NumberOf(s[0..e], b), e, false)
  {
    hide NumberOf, BaseAt, AllDigits;
    assert SkipSpaces(s, 0) == 0;
    RunEndIs(s, 0, b, e);
  }

  /** A printed number and a non-digit read back in either base, up to there, unless they begin a hexadecimal. */
  lemma StrtoullOfDec(n: nat, rest: string, base: nat)
    requires n <= MAX64 && (base == 0 || base == 10)
    requires rest != [] ==> DigitValue(rest[0]) >= 10 && !(n == 0 && |rest| > 1 && rest[0] in "xX")
    ensures Strtoull(Dec(n) + rest, base) == Converted(n, |Dec(n)|, false)
  {
    hide Strtoull;
    var d := Dec(n);
    var s := d + rest;
    DecValue(n);
    assert s[0] == d[0] && DigitValue(d[0]) < 10;
    assert s[0..|d|] == d;
    if n == 0 && base == 0 {
      ZeroInAnyBase();
      StrtoullIs(s, 0, 8, 1);
    } else {
      StrtoullIs(s, base, 10, |d|);
    }
  }

  /** Base 0 reads a number behind 0x in base 16. */
  lemma StrtoullOfHex(digits: string, x: char)
    requires digits != "" && x in "xX" && AllDigits(digits, 16) && NumberOf(digits, 16) <= MAX64
    ensures Strtoull("0" + [x] + digits, 0) == Converted(NumberOf(digits, 16), |digits| + 2, false)
  {
    hide NumberOf, AllDigits, BaseAt, RunEnd;
    var h := "0" + [x] + digits;
    assert h[0] == '0' && SkipSpaces(h, 0) == 0;
    HexBase(digits, x);
    RunEndIs(h, 2, 16, |h|);
  }

  lemma HexBase(digits: string, x: char)
    requires digits != "" && x in "xX" && AllDigits(digits, 16)
    ensures var h := "0" + [x] + digits;
      h[2..|h|] == digits && BaseAt(h, 0, 0) == (16, 2)
  {
    var h := "0" + [x] + digits;
    assert h[0] == '0' && h[1] == x && h[2] == digits[0];
    assert h[2..|h|] == digits;
  }

  /** Base 0 reads a number behind 0 in base 8. */
  lemma StrtoullOfOctal(digits: string)
    requires digits != "" && AllDigits(digits, 8) && NumberOf(digits, 8) <= MAX64
    ensures Strtoull("0" + digits, 0) == Converted(NumberOf(digits, 8), |digits| + 1, false)
  {
    hide NumberOf, AllDigits, BaseAt;
    var o := "0" + digits;
    LeadingZero(digits, 8);
    assert o[0..|o|] == o;
    OctalBase(digits);
    assert !IsSpace('0') by { NoSpace(); }
    StrtoullIs(o, 0, 8, |o|);
  }

  lemma OctalBase(digits: string)
    requires digits != "" && AllDigits(digits, 8)
    ensures AllDigits("0" + digits, 8) && BaseAt("0" + digits, 0, 0) == (8, 0)
  {
    var o := "0" + digits;
    assert o[1] == digits[0];
    forall i | 0 <= i < |o|
      ensures DigitValue(o[i]) < 8
    {
      if i > 0 {
        assert o[i] == digits[i - 1];
      }
    }
  }

  lemma NoSpace()
    ensures !IsSpace('0')
  {
  }

  lemma {:induction false} LeadingZero(s: string, base: nat)
    requires base > 0
    ensures NumberOf("0" + s, base) == NumberOf(s, base)
  {
    var t := "0" + s;
    if s == [] {
      assert t[..0] == [];
    } else {
      assert t[..|t| - 1] == "0" + s[..|s| - 1];
      LeadingZero(s[..|s| - 1], base);
    }
  }

  /** The sixteen digits, in either case. */
  lemma DigitValues(i: nat)
    requires i < 16
    ensures DigitValue("0123456789abcdef"[i]) == DigitValue("0123456789ABCDEF"[i]) == i
  {
  }

  lemma ZeroInAnyBase()
    ensures Dec(0) == "0" && NumberOf("0", 8) == 0 && AllDigits("0", 8)
  {
    assert NumberOf("0"[..0], 8) == 0;
  }
}
