/** Python's `int(x)` applied to a decoded JSON value, and Python's `str(n)`
    for integers as its partner. */
module PyInt {
  import opened PyValues

  /** Default of `sys.int_max_str_digits`: `int(s)` refuses a decimal string
      with more digits than this. */
  const MAX_STR_DIGITS := 4300

  /** The characters that `int(s)` skips before and after the number in an
      ASCII string: tab, newline, vertical tab, form feed, carriage return and
      space (C's `isspace`; the separators 0x1c-0x1f are not among them). */
  predicate IsSpace(ch: char) {
    ch == ' ' || '\t' <= ch <= '\r'
  }

  /** Whether every character of `s` is ASCII. CPython hands such a string
      to its digit parser unchanged; other strings first have their Unicode
      digits and white space rewritten to ASCII. */
  predicate IsAscii(s: string) {
    forall i :: 0 <= i < |s| ==> s[i] as int < 128
  }

  predicate IsDigit(ch: char) {
    '0' <= ch <= '9'
  }

  function DigitValue(ch: char): (d: nat)
    requires IsDigit(ch)
    ensures d < 10
  {
    ch as int - '0' as int
  }

  function DigitChar(d: nat): (ch: char)
    requires d < 10
    ensures IsDigit(ch) && DigitValue(ch) == d
  {
    ('0' as int + d) as char
  }

  /** `s` with its leading white space removed. */
  function TrimLeft(s: string): (t: string)
    ensures |t| <= |s| && t == s[|s| - |t|..]
    ensures t == [] || !IsSpace(t[0])
    ensures forall i :: 0 <= i < |s| - |t| ==> IsSpace(s[i])
  {
    if s != [] && IsSpace(s[0]) then TrimLeft(s[1..]) else s
  }

  /** `s` with its trailing white space removed. */
  function TrimRight(s: string): (t: string)
    ensures |t| <= |s| && t == s[..|t|]
    ensures t == [] || !IsSpace(t[|t| - 1])
    ensures forall i :: |t| <= i < |s| ==> IsSpace(s[i])
  {
    if s != [] && IsSpace(s[|s| - 1]) then TrimRight(s[..|s| - 1]) else s
  }

  /** A run of decimal digits in which every underscore stands alone between
      two digits: not first, not last, never doubled. */
  predicate WellFormedDigits(s: string) {
    |s| > 0 && forall i :: 0 <= i < |s| ==> DigitOrSeparator(s, i)
  }

  /** `s[i]` is a digit, or an underscore with a digit on either side. */
  predicate DigitOrSeparator(s: string, i: nat)
    requires i < |s|
  {
    IsDigit(s[i]) || (s[i] == '_' && 0 < i < |s| - 1 && IsDigit(s[i - 1]) && IsDigit(s[i + 1]))
  }

  /** The number of digits in `s`, underscores not counted. */
  function DigitCount(s: string): (n: nat) {
    if s == [] then 0
    else DigitCount(s[..|s| - 1]) + (if IsDigit(s[|s| - 1]) then 1 else 0)
  }

  /** The value of the decimal digits of `s`, read left to right, with
      underscores skipped. */
  function DigitsValue(s: string): (n: nat) {
    if s == [] then 0
    else if IsDigit(s[|s| - 1]) then DigitsValue(s[..|s| - 1]) * 10 + DigitValue(s[|s| - 1])
    else DigitsValue(s[..|s| - 1])
  }

  /** `s` with white space removed at both ends. */
  function Strip(s: string): (t: string) {
    TrimRight(TrimLeft(s))
  }

  /** Splits an optional leading sign off `t`: whether it was '-', and the rest. */
  function SplitSign(t: string): (r: (bool, string))
    ensures r.1 == t || (|t| > 0 && r.1 == t[1..])
  {
    if t != [] && (t[0] == '+' || t[0] == '-') then (t[0] == '-', t[1..]) else (false, t)
  }

  /** `int(s)` for a str `s`, base 10: optional surrounding white space, an
      optional sign, then well-formed digits, at most MAX_STR_DIGITS of them. */
  function ParseInt(s: string): (r: Outcome<int>)
    ensures r.Raised? ==> r.error == InvalidLiteral(s) || r.error.TooManyDigits?
    ensures r.Raised? && r.error.TooManyDigits? ==> r.error.digits > MAX_STR_DIGITS
  {
    var signed := SplitSign(Strip(s));
    ParseDigits(signed.0, signed.1, s)
  }

  /** The digits after the sign: `text` is the whole argument of `int`, which
      an invalid-literal error quotes. */
  function ParseDigits(negative: bool, digits: string, text: string): (r: Outcome<int>)
    ensures r.Raised? ==> r.error == InvalidLiteral(text) || r.error.TooManyDigits?
    ensures r.Raised? && r.error.TooManyDigits? ==> r.error.digits > MAX_STR_DIGITS
  {
    if !WellFormedDigits(digits) then Raised(InvalidLiteral(text))
    else if DigitCount(digits) > MAX_STR_DIGITS then Raised(TooManyDigits(DigitCount(digits)))
    else Returned(if negative then -(DigitsValue(digits) as int) else DigitsValue(digits))
  }

  /** `int(x)` for a finite float: truncation toward zero. */
  function Truncate(x: real): (n: int)
    ensures 0.0 <= x ==> n as real <= x < n as real + 1.0
    ensures x < 0.0 ==> n as real - 1.0 < x <= n as real
  {
    if x >= 0.0 then x.Floor else -((-x).Floor)
  }

  /** `int(v)` for a value taken from the request body. */
  function ToInt(v: Json): (r: Outcome<int>)
    ensures v.Int? ==> r == Returned(v.i)
    ensures v.Bool? ==> r == Returned(if v.b then 1 else 0)
    ensures r.Raised? && r.error.NotANumber? <==> v.Null? || v.Arr? || v.Obj?
    ensures v.Num? ==> (r.Raised? <==> !v.f.Finite?)
    ensures v.Num? && v.f.Finite? ==> r == Returned(Truncate(v.f.value))
  {
    match v
    case Int(i) => Returned(i)
    case Bool(b) => Returned(if b then 1 else 0)
    case Num(f) =>
      (match f
       case Finite(x) => Returned(Truncate(x))
       case NaN => Raised(FloatNaN)
       case _ => Raised(FloatInfinity))
    case Str(s) => ParseInt(s)
    case _ => Raised(NotANumber(TypeName(v)))
  }

  /** `str(n)` for a non-negative integer. */
  function DecimalString(n: nat): (s: string)
    ensures |s| > 0
    ensures forall i :: 0 <= i < |s| ==> IsDigit(s[i])
  {
    if n < 10 then [DigitChar(n)] else DecimalString(n / 10) + [DigitChar(n % 10)]
  }

  /** `str(i)` for any integer. */
  function IntToString(i: int): (s: string) {
    if i < 0 then "-" + DecimalString(-i) else DecimalString(i)
  }

  lemma {:induction false} DecimalStringValue(n: nat)
    ensures DigitsValue(DecimalString(n)) == n
    ensures DigitCount(DecimalString(n)) == |DecimalString(n)|
    decreases n
  {
    var s := DecimalString(n);
    if n >= 10 {
      DecimalStringValue(n / 10);
      assert s[..|s| - 1] == DecimalString(n / 10);
    }
  }

  /** A string of digits, with or without a minus sign in front, is read
      back by `int` as its digits' value, negated after a minus sign. */
  lemma DigitsParse(s: string, negative: bool)
    requires |s| > 0 && forall i :: 0 <= i < |s| ==> IsDigit(s[i])
    requires DigitCount(s) <= MAX_STR_DIGITS
    ensures ParseInt(if negative then "-" + s else s) ==
              Returned(if negative then -(DigitsValue(s) as int) else DigitsValue(s))
  {
    var u := if negative then "-" + s else s;
    AllDigitsWellFormed(s);
    SignedParse(s, negative);
    WellFormedParse(s, negative, u);
  }

  lemma WellFormedParse(s: string, negative: bool, text: string)
    requires WellFormedDigits(s) && DigitCount(s) <= MAX_STR_DIGITS
    ensures ParseDigits(negative, s, text) ==
              Returned(if negative then -(DigitsValue(s) as int) else DigitsValue(s))
  {
  }

  lemma AllDigitsWellFormed(s: string)
    requires |s| > 0 && forall i :: 0 <= i < |s| ==> IsDigit(s[i])
    ensures WellFormedDigits(s)
  {
    assert forall i :: 0 <= i < |s| ==> DigitOrSeparator(s, i);
  }

  lemma SignedParse(s: string, negative: bool)
    requires |s| > 0 && IsDigit(s[0]) && IsDigit(s[|s| - 1])
    ensures var u := if negative then "-" + s else s; ParseInt(u) == ParseDigits(negative, s, u)
  {
    SignedDigitsSplit(s, negative);
  }

  lemma SignedDigitsSplit(s: string, negative: bool)
    requires |s| > 0 && IsDigit(s[0]) && IsDigit(s[|s| - 1])
    ensures SplitSign(Strip(if negative then "-" + s else s)) == (negative, s)
  {
    var u := if negative then "-" + s else s;
    assert u[|u| - 1] == s[|s| - 1];
    NoSpaceAround(u);
    if negative {
      assert u[1..] == s;
    }
  }

  lemma NoSpaceAround(u: string)
    requires |u| > 0 && !IsSpace(u[0]) && !IsSpace(u[|u| - 1])
    ensures Strip(u) == u
  {
    assert TrimLeft(u) == u;
  }

  /** Round trip: `int(str(i)) == i` whenever `str(i)` is within the digit limit. */
  lemma ParseIntToString(i: int)
    requires |DecimalString(if i < 0 then -i else i)| <= MAX_STR_DIGITS
    ensures ParseInt(IntToString(i)) == Returned(i)
    ensures ToInt(Str(IntToString(i))) == Returned(i)
  {
    var n: nat := if i < 0 then -i else i;
    var digits := DecimalString(n);
    DecimalStringValue(n);
    DigitsParse(digits, i < 0);
    assert IntToString(i) == if i < 0 then "-" + digits else digits;
    ToIntOfStr(IntToString(i));
  }

  lemma ToIntOfStr(s: string)
    ensures ToInt(Str(s)) == ParseInt(s)
  {
  }

  /** `int` ignores white space around the number. */
  lemma ParseIntIgnoresSpace(s: string, lead: string, trail: string)
    requires forall i :: 0 <= i < |lead| ==> IsSpace(lead[i])
    requires forall i :: 0 <= i < |trail| ==> IsSpace(trail[i])
    ensures ParseInt(lead + s + trail).Returned? <==> ParseInt(s).Returned?
    ensures ParseInt(lead + s + trail).Returned? ==> ParseInt(lead + s + trail) == ParseInt(s)
  {
    var u := lead + s + trail;
    assert u == lead + (s + trail);
    TrimLeftSpace(lead, s + trail);
    TrimLeftAppend(s, trail);
    TrimRightSpace(TrimLeft(s), trail);
    assert Strip(u) == Strip(s);
    StripDecides(u, s);
  }

  /** `int(s)` depends on `s` only through `Strip(s)`, except for the text of
      the invalid-literal error. */
  lemma StripDecides(u: string, s: string)
    requires Strip(u) == Strip(s)
    ensures ParseInt(u).Returned? <==> ParseInt(s).Returned?
    ensures ParseInt(u).Returned? ==> ParseInt(u) == ParseInt(s)
  {
  }

  /** A prefix `t` of a suffix `l` of `s` is a slice of `s`, and what `t`
      leaves of `l` is what it leaves of `s` after `l` begins. */
  lemma SliceOfSlice(s: string, l: string, t: string)
    requires |l| <= |s| && l == s[|s| - |l|..]
    requires |t| <= |l| && t == l[..|t|]
    requires forall i :: |t| <= i < |l| ==> IsSpace(l[i])
    ensures var a := |s| - |l|;
      t == s[a..a + |t|] && forall i :: a + |t| <= i < |s| ==> IsSpace(s[i])
  {
    var a := |s| - |l|;
    forall i | a + |t| <= i < |s|
      ensures IsSpace(s[i])
    {
      assert s[i] == l[i - a];
    }
  }

  /** The digits `ParseInt` examines are the slice `s[b..e]` of its argument,
      where everything before `b` is white space or the one sign, and
      everything from `e` on is white space. */
  lemma DigitsSlice(s: string) returns (b: nat, e: nat)
    ensures b <= e <= |s| && SplitSign(Strip(s)).1 == s[b..e]
    ensures forall i :: 0 <= i < b ==> IsSpace(s[i]) || s[i] == '+' || s[i] == '-'
    ensures forall i :: e <= i < |s| ==> IsSpace(s[i])
  {
    var l := TrimLeft(s);
    var t := TrimRight(l);
    assert Strip(s) == t;
    SliceOfSlice(s, l, t);
    b, e := SignSlice(s, |s| - |l|, t);
  }

  /** Splitting the sign off a slice `t == s[a..]` of `s` leaves a slice of `s`. */
  lemma SignSlice(s: string, a: nat, t: string) returns (b: nat, e: nat)
    requires a + |t| <= |s| && t == s[a..a + |t|]
    ensures a <= b <= e == a + |t| && SplitSign(t).1 == s[b..e]
    ensures forall i :: a <= i < b ==> s[i] == '+' || s[i] == '-'
  {
    e := a + |t|;
    if t != [] && (t[0] == '+' || t[0] == '-') {
      b := a + 1;
      assert s[a] == t[0];
      assert t[1..] == s[b..e];
    } else {
      b := a;
    }
  }

  /** An ASCII string without a single decimal digit is refused: "", "-", "abc". */
  lemma ParseIntRefusesNoDigits(s: string)
    requires IsAscii(s)
    requires forall i :: 0 <= i < |s| ==> !IsDigit(s[i])
    ensures ParseInt(s) == Raised(InvalidLiteral(s))
  {
    var b, e := DigitsSlice(s);
    var digits := SplitSign(Strip(s)).1;
    if digits != [] {
      assert digits[0] == s[b];
      assert !DigitOrSeparator(digits, 0);
    }
  }

  /** In an ASCII string, a character that is neither white space, a sign, a
      digit nor an underscore makes `int(s)` refuse `s`, wherever it occurs. */
  lemma ParseIntRefusesStrayCharacter(s: string, k: nat)
    requires IsAscii(s)
    requires k < |s|
    requires !IsSpace(s[k]) && !IsDigit(s[k]) && s[k] != '_' && s[k] != '+' && s[k] != '-'
    ensures ParseInt(s) == Raised(InvalidLiteral(s))
  {
    var b, e := DigitsSlice(s);
    var digits := SplitSign(Strip(s)).1;
    assert b <= k < e;
    assert digits[k - b] == s[k];
    assert !DigitOrSeparator(digits, k - b);
  }

  /** An underscore that does not stand between two digits makes `int(s)`
      refuse a run of digits and underscores: "_1", "1_", "1__0". */
  lemma ParseIntRefusesMisplacedUnderscore(s: string, k: nat)
    requires forall i :: 0 <= i < |s| ==> IsDigit(s[i]) || s[i] == '_'
    requires k < |s| && s[k] == '_'
    requires k == 0 || k == |s| - 1 || s[k + 1] == '_'
    ensures ParseInt(s) == Raised(InvalidLiteral(s))
  {
    NoSpaceAround(s);
    assert SplitSign(s) == (false, s);
    assert !DigitOrSeparator(s, k);
  }

  lemma {:induction false} TrimLeftSpace(lead: string, s: string)
    requires forall i :: 0 <= i < |lead| ==> IsSpace(lead[i])
    ensures TrimLeft(lead + s) == TrimLeft(s)
    decreases |lead|
  {
    if lead != [] {
      assert (lead + s)[1..] == lead[1..] + s;
      TrimLeftSpace(lead[1..], s);
    } else {
      assert lead + s == s;
    }
  }

  lemma {:induction false} TrimLeftAppend(s: string, trail: string)
    requires forall i :: 0 <= i < |trail| ==> IsSpace(trail[i])
    ensures TrimLeft(s + trail) == TrimLeft(s) + trail
       || (TrimLeft(s) == [] && TrimLeft(s + trail) == [])
    decreases |s|
  {
    if s == [] {
      assert s + trail == trail;
      TrimLeftSpace(trail, []);
      assert trail + [] == trail;
    } else if IsSpace(s[0]) {
      assert (s + trail)[1..] == s[1..] + trail;
      TrimLeftAppend(s[1..], trail);
    }
  }

  lemma {:induction false} TrimRightSpace(s: string, trail: string)
    requires forall i :: 0 <= i < |trail| ==> IsSpace(trail[i])
    ensures TrimRight(s + trail) == TrimRight(s)
    decreases |trail|
  {
    if trail != [] {
      assert (s + trail)[..|s + trail| - 1] == s + trail[..|trail| - 1];
      TrimRightSpace(s, trail[..|trail| - 1]);
    } else {
      assert s + trail == s;
    }
  }
}
