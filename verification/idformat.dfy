/** FormatID on any text: what strtol reads as a number is printed with "%03d", the rest stays. */
module IdFormats {
  import opened Options
  import opened KeyFiles

  const INT_RANGE: int := 0x1_0000_0000
  const INT_MAX: int := 0x7FFF_FFFF
  const LONG_MAX: int := 0x7FFF_FFFF_FFFF_FFFF

  predicate Blank(c: char) {
    c == ' ' || 9 as char <= c <= 13 as char
  }

  function SkipBlanks(s: string): string {
    if s != "" && Blank(s[0]) then SkipBlanks(s[1..]) else s
  }

  predicate AllDigits(s: string) {
    forall i | 0 <= i < |s| :: Digit(s[i])
  }

  function Clamped(x: int): int {
    if x > LONG_MAX then LONG_MAX else if x < -LONG_MAX - 1 then -LONG_MAX - 1 else x
  }

  /** strtol in base 10, if it reads the text to its end. */
  function Strtol(s: string): Option<int> {
    var t := SkipBlanks(s);
    var negative := t != "" && t[0] == '-';
    var digits := if negative || (t != "" && t[0] == '+') then t[1..] else t;
    if digits == "" || !AllDigits(digits) then None
    else
      var n: int := Value(digits);
      Some(Clamped(if negative then -n else n))
  }

  /** The assignment of a long to an int. */
  function ToInt(x: int): int {
    var low := x % INT_RANGE;
    if low > INT_MAX then low - INT_RANGE else low
  }

  function PaddedTo2(s: string): string
    decreases 2 - |s|
  {
    if |s| >= 2 then s else PaddedTo2("0" + s)
  }

  /** printf with "%03d"; a sign counts as one of the three characters. */
  function Printed3(n: int): string {
    if n >= 0 then Format3(n) else "-" + PaddedTo2(Digits(-n))
  }

  function FormatText(s: string): string {
    if s == "" then s
    else match Strtol(s)
      case None => s
      case Some(x) => Printed3(ToInt(x))
  }

  lemma {:induction false} PaddedTo2Value(s: string)
    requires AllDigits(s)
    ensures AllDigits(PaddedTo2(s)) && Value(PaddedTo2(s)) == Value(s) && |PaddedTo2(s)| >= 2
    decreases 2 - |s|
  {
    if |s| < 2 {
      LeadingZero(s);
      PaddedTo2Value("0" + s);
    }
  }

  /** A printed number is read back, and prints the same again. */
  lemma PrintedReadsBack(n: int)
    requires -INT_MAX - 1 <= n <= INT_MAX
    ensures Printed3(n) != "" && Strtol(Printed3(n)) == Some(n) && ToInt(n) == n
  {
    hide Format3, PaddedTo2, Digits, Value, Strtol;
    if n >= 0 {
      FormatRoundTrip(n);
      FormatIsLong(n);
      assert "" + "" + Format3(n) == Printed3(n);
      NumeralIsRead("", "", Format3(n));
    } else {
      var t := PaddedTo2(Digits(-n));
      DigitsValue(-n);
      PaddedTo2Value(Digits(-n));
      assert "" + "-" + t == Printed3(n);
      NumeralIsRead("", "-", t);
    }
  }

  lemma FormatIsLong(n: nat)
    ensures |Format3(n)| >= 3
  {
    PaddedLength(Digits(n));
  }

  // ---- Which texts are numbers

  /** Blanks, a sign or none, and at least one digit. */
  predicate Numeral(blanks: string, sign: string, digits: string) {
    && (forall i | 0 <= i < |blanks| :: blanks[i] == ' ' || 9 <= blanks[i] as int <= 13)
    && (sign == "" || sign == "+" || sign == "-")
    && digits != "" && AllDigits(digits)
  }

  function NumberOf(sign: string, digits: string): int
    requires AllDigits(digits)
  {
    var n: int := Value(digits);
    if sign == "-" then -n else n
  }

  lemma {:induction false} SkipsTo(blanks: string, rest: string)
    requires forall i | 0 <= i < |blanks| :: Blank(blanks[i])
    requires rest != "" && !Blank(rest[0])
    ensures SkipBlanks(blanks + rest) == rest
  {
    if blanks == "" {
      assert blanks + rest == rest;
    } else {
      assert (blanks + rest)[1..] == blanks[1..] + rest;
      SkipsTo(blanks[1..], rest);
    }
  }

  lemma {:induction false} SkipsOnly(s: string) returns (blanks: string)
    ensures s == blanks + SkipBlanks(s) && forall i | 0 <= i < |blanks| :: Blank(blanks[i])
  {
    if s != "" && Blank(s[0]) {
      var rest := SkipsOnly(s[1..]);
      blanks := [s[0]] + rest;
    } else {
      blanks := "";
    }
  }

  lemma NumeralIsRead(blanks: string, sign: string, digits: string)
    requires Numeral(blanks, sign, digits)
    ensures Strtol(blanks + sign + digits) == Some(Clamped(NumberOf(sign, digits)))
  {
    hide Value;
    var t := sign + digits;
    assert blanks + sign + digits == blanks + t;
    assert Digit(digits[0]);
    if sign != "" {
      assert t[0] == sign[0] && t[1..] == digits;
    }
    SkipsTo(blanks, t);
    assert sign == "" ==> t == digits;
  }

  lemma OnlyNumeralsAreRead(s: string) returns (blanks: string, sign: string, digits: string)
    requires Strtol(s).Some?
    ensures Numeral(blanks, sign, digits) && s == blanks + sign + digits
  {
    hide Value, Clamped, SkipBlanks;
    blanks := SkipsOnly(s);
    var t := SkipBlanks(s);
    if t != "" && (t[0] == '-' || t[0] == '+') {
      sign, digits := [t[0]], t[1..];
    } else {
      sign, digits := "", t;
    }
    assert t == sign + digits;
    assert blanks + (sign + digits) == blanks + sign + digits;
  }

  /** n is what an int keeps of a number: the number itself if it is in range, and else what is left modulo 2^32. */
  ghost predicate Kept(number: int, n: int) {
    && -0x8000_0000 <= n < 0x8000_0000
    && (number - n) % 0x1_0000_0000 == 0
    && (-0x8000_0000 <= number < 0x8000_0000 ==> n == number)
  }

  lemma ToIntKeeps(x: int)
    ensures Kept(x, ToInt(x))
  {
  }

  /** What a long keeps of a number read from a text. */
  ghost predicate Saturates(number: int, x: int) {
    && -0x8000_0000_0000_0000 <= x < 0x8000_0000_0000_0000
    && (x < number ==> x == 0x7FFF_FFFF_FFFF_FFFF) && (number < x ==> x == -0x8000_0000_0000_0000)
  }

  /**
   * A text that is a number, with blanks and a sign before it or not, becomes what a long and then an int keep of that
   * number, in the usual format: the number itself if it is in range. A text that is none stays as it is.
   */
  lemma FormatsNumbersExactly(s: string)
    ensures forall blanks, sign, digits | Numeral(blanks, sign, digits) && s == blanks + sign + digits ::
      exists x, n :: Saturates(NumberOf(sign, digits), x) && Kept(x, n) && FormatText(s) == Printed3(n)
    ensures (forall blanks, sign, digits | Numeral(blanks, sign, digits) :: s != blanks + sign + digits) ==>
      FormatText(s) == s
  {
    hide Strtol, Printed3;
    forall blanks, sign, digits | Numeral(blanks, sign, digits) && s == blanks + sign + digits
      ensures exists x, n :: Saturates(NumberOf(sign, digits), x) && Kept(x, n) && FormatText(s) == Printed3(n)
    {
      NumeralIsRead(blanks, sign, digits);
      var x := Clamped(NumberOf(sign, digits));
      ToIntKeeps(x);
      assert Saturates(NumberOf(sign, digits), x) && Kept(x, ToInt(x)) && FormatText(s) == Printed3(ToInt(x));
    }
    if Strtol(s).Some? {
      var blanks, sign, digits := OnlyNumeralsAreRead(s);
    }
  }

  /** A negative number has a sign and at least two digits, a third and more only if they are needed. */
  lemma PrintedNegative(n: nat)
    requires 0 < n
    ensures var s := Printed3(0 - n);
      && |s| >= 3 && s[0] == '-' && AllDigits(s[1..]) && Value(s[1..]) == n
      && (|s| > 3 ==> s[1] != '0')
  {
    var t := Digits(n);
    DigitsValue(n);
    DigitsAreShortest(n);
    hide Digits, Value;
    PaddedTo2Value(t);
    PaddedTo2Length(t);
    assert Printed3(0 - n)[1..] == PaddedTo2(t);
  }

  lemma {:induction false} PaddedTo2Length(s: string)
    ensures |s| < 2 ==> |PaddedTo2(s)| == 2
    ensures |s| >= 2 ==> PaddedTo2(s) == s
    decreases 2 - |s|
  {
    if |s| < 2 {
      PaddedTo2Length("0" + s);
    }
  }

  lemma ToIntRange(x: int)
    ensures -INT_MAX - 1 <= ToInt(x) <= INT_MAX
  {
  }

  /** Formatting twice is formatting once. */
  lemma FormatTwice(s: string)
    ensures FormatText(FormatText(s)) == FormatText(s)
  {
    hide Strtol, ToInt, Printed3;
    if s != "" && Strtol(s).Some? {
      ToIntRange(Strtol(s).value);
      PrintedReadsBack(ToInt(Strtol(s).value));
    }
  }

  function Power10(n: nat): nat {
    if n == 0 then 1 else 10 * Power10(n - 1)
  }

  lemma {:induction false} ValueBound(s: string)
    requires AllDigits(s)
    ensures Value(s) < Power10(|s|)
  {
    if s != "" {
      ValueBound(s[..|s| - 1]);
    }
  }

  lemma {:induction false} Power10Grows(m: nat, n: nat)
    requires m <= n
    ensures Power10(m) <= Power10(n)
  {
    if m < n {
      Power10Grows(m, n - 1);
    }
  }

  lemma EightDigits()
    ensures Power10(8) == 100000000
  {
    assert Power10(4) == 10000;
    assert Power10(8) == 10000 * Power10(4);
  }

  lemma StrtolDigits(s: string)
    requires AllDigits(s) && s != "" && Value(s) <= LONG_MAX
    ensures Strtol(s) == Some(Value(s))
  {
    hide Value;
    assert Digit(s[0]);
  }

  /** A valid id that is not empty becomes its number in three digits or more. */
  lemma FormatValidId(s: string)
    requires ValidId(s) && s != ""
    ensures FormatText(s) == Format3(Value(s))
  {
    hide Value, Power10, Format3, Strtol, ToInt;
    ValueBound(s);
    Power10Grows(|s|, 8);
    EightDigits();
    StrtolDigits(s);
    PrintedReadsBack(Value(s));
  }
}
