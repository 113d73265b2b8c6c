/** Exact fixed-decimal amounts: the ledger's own text form and that of statement rows. */
module AmountText {
  import opened Wrappers
  import opened Numbers
  import opened Text

  // ----- shapes

  predicate StartsWith(s: string, c: char) {
    s != "" && s[0] == c
  }

  /** The text without one leading minus. */
  function Unsigned(s: string): string {
    if StartsWith(s, '-') then s[1..] else s
  }

  /** `{whole}`, or `{whole}{separator}{fraction}`, with a whole part of digits. */
  predicate Decimal(s: string, separator: char) {
    var parts := Split(s, separator);
    |parts| <= 2 && parts[0] != "" && AllDigits(parts[0])
  }

  function Whole(s: string, separator: char): string {
    Split(s, separator)[0]
  }

  function Fraction(s: string, separator: char): string {
    var parts := Split(s, separator);
    if |parts| > 1 then parts[1] else ""
  }

  /** The hundredths that a whole part and at most two fractional digits spell. */
  function Hundredths(whole: string, fraction: string): nat
    requires AllDigits(whole) && AllDigits(fraction) && |fraction| <= 2
  {
    100 * Value(whole) + (if |fraction| == 1 then 10 * Value(fraction) else Value(fraction))
  }

  function WithSign(negative: bool, minor: nat): int {
    if negative then -(minor as int) else minor as int
  }

  // ----- the ledger's own form

  /** What `Amount::parse` accepts, before range. */
  predicate WellFormed(s: string) {
    var u := Unsigned(s);
    && Decimal(u, '.')
    && (|Split(u, '.')| == 2 ==> 1 <= |Fraction(u, '.')| <= 2 && AllDigits(Fraction(u, '.')))
  }

  /** What parsing must give: the value, if the text is well-formed and the magnitude fits. */
  function AmountSpec(s: string): Option<int> {
    if !WellFormed(s) then None else
    var u := Unsigned(s);
    var minor := Hundredths(Whole(u, '.'), Fraction(u, '.'));
    if minor > I64_MAX then None else Some(WithSign(StartsWith(s, '-'), minor))
  }

  method ParseAmount(s: string) returns (r: Option<int>)
    ensures r == AmountSpec(s)
  {
    if s == "" {
      return None;
    }
    var negative, unsigned := false, s;
    if s[0] == '-' {
      negative, unsigned := true, s[1..];
      if unsigned == "" {
        return None;
      }
    }
    if unsigned[0] == '+' {
      PlusIsNoDigit(unsigned, '.');
      return None;
    }
    var parts := Split(unsigned, '.');
    var whole := parts[0];
    if |parts| > 2 || whole == "" || !AllDigits(whole) {
      return None;
    }
    if Value(whole) > I64_MAX {
      return None;
    }
    var minor := Value(whole);
    if minor * 100 > I64_MAX {
      return None;
    }
    minor := minor * 100;
    if |parts| == 2 {
      var fraction := parts[1];
      if fraction == "" || |fraction| > 2 || !AllDigits(fraction) {
        return None;
      }
      var cents := if |fraction| == 1 then Value(fraction) * 10 else Value(fraction);
      if minor + cents > I64_MAX {
        return None;
      }
      minor := minor + cents;
    }
    r := Some(if negative then -minor else minor);
  }

  lemma PlusIsNoDigit(s: string, separator: char)
    requires StartsWith(s, '+') && separator != '+'
    ensures !Decimal(s, separator)
  {
    assert Split(s, separator)[0][0] == '+';
  }

  /** `to_decimal_string`: exactly two fractional digits. */
  function ToDecimal(v: i64): string {
    if v < 0 then ['-'] + MagnitudeText(-(v as int)) else MagnitudeText(v as int)
  }

  function MagnitudeText(m: nat): string {
    Print(m / 100) + ['.'] + Padded(m % 100, 2)
  }

  lemma MagnitudeSplits(m: nat)
    ensures Split(MagnitudeText(m), '.') == [Print(m / 100), Padded(m % 100, 2)]
    ensures |Padded(m % 100, 2)| == 2 && !StartsWith(MagnitudeText(m), '-')
  {
    SplitAt(Print(m / 100), Padded(m % 100, 2), '.');
    SplitFree(Padded(m % 100, 2), '.');
    assert Pow10(2) == 100;
    assert MagnitudeText(m)[0] == Print(m / 100)[0];
  }

  /** Parsing inverts printing, for every amount but the least one. */
  lemma ParseInvertsPrint(v: i64)
    ensures AmountSpec(ToDecimal(v)) == if v == I64_MIN then None else Some(v)
  {
    hide Split;
    hide Padded;
    hide Print;
    var m: nat := if v < 0 then -(v as int) else v as int;
    MagnitudeSplits(m);
    var s := ToDecimal(v);
    assert MagnitudeText(m) != "";
    hide MagnitudeText;
    if v < 0 {
      assert s[1..] == MagnitudeText(m);
    }
    assert Unsigned(s) == MagnitudeText(m) && (StartsWith(s, '-') <==> v < 0);
    assert Hundredths(Print(m / 100), Padded(m % 100, 2)) == m;
    assert WellFormed(s) && Fraction(Unsigned(s), '.') == Padded(m % 100, 2);
    assert IsI64(v);
  }

  // ----- statement amounts

  datatype AmountError = ExcessPrecision | AmbiguousSign | MalformedAmount | ArithmeticOverflow

  /** Bytes of the UTF-8 form of a character. */
  function Utf8Length(c: char): nat {
    if c < '\U{80}' then 1 else if c < '\U{800}' then 2 else if c < '\U{10000}' then 3 else 4
  }

  function ByteLength(s: string): (n: nat)
    ensures n >= |s|
    ensures AllDigits(s) ==> n == |s|
  {
    if s == "" then 0 else ByteLength(s[..|s| - 1]) + Utf8Length(s[|s| - 1])
  }

  predicate HasParenthesis(s: string) {
    '(' in s || ')' in s
  }

  /** What parsing a statement amount must give, with its refusals in order. */
  function StatementAmountSpec(s: string, separator: char, digits: nat, negate: bool): Result<int, AmountError>
    requires digits <= 2
  {
    if s == "" || s[0] == '+' || HasParenthesis(s) || (negate && s[0] == '-') then Err(AmbiguousSign) else
    var u := Unsigned(s);
    if !Decimal(u, separator) then Err(MalformedAmount) else
    var fraction := Fraction(u, separator);
    if ByteLength(fraction) > digits then Err(ExcessPrecision)
    else if !AllDigits(fraction) then Err(MalformedAmount)
    else if Hundredths(Whole(u, separator), fraction) > I64_MAX then Err(ArithmeticOverflow)
    else
      var minor := Hundredths(Whole(u, separator), fraction);
      Ok(WithSign(StartsWith(s, '-') != negate, minor))
  }

  /** The factor of a scale of at most two digits. */
  function Scale(e: nat): (p: nat)
    requires e <= 2
    ensures p == Pow10(e)
  {
    if e == 0 then 1 else if e == 1 then 10 else 100
  }

  /** The checked arithmetic on the digits: whole and fraction at the declared scale, then hundredths. */
  method ScaledValue(whole: string, fraction: string, digits: nat) returns (r: Option<int>)
    requires digits <= 2 && |fraction| <= digits && AllDigits(whole) && AllDigits(fraction)
    ensures r == if Hundredths(whole, fraction) > I64_MAX then None else Some(Hundredths(whole, fraction))
  {
    hide Pow10;
    hide Value;
    assert fraction == "" ==> Value(fraction) == 0 by {
      NoDigits();
    }
    if Value(whole) > I64_MAX || Value(whole) * Scale(digits) > I64_MAX {
      return None;
    }
    var value := Value(whole) * Scale(digits);
    if fraction != "" {
      var parsed := Value(fraction) * Scale(digits - |fraction|);
      if parsed > I64_MAX || value + parsed > I64_MAX {
        return None;
      }
      value := value + parsed;
    }
    if digits < 2 {
      if value * Scale(2 - digits) > I64_MAX {
        return None;
      }
      value := value * Scale(2 - digits);
    }
    r := Some(value);
  }

  lemma NoDigits()
    ensures Value("") == 0
  {
  }

  method ParseStatementAmount(s: string, separator: char, digits: nat, negate: bool)
    returns (r: Result<int, AmountError>)
    requires digits <= 2
    ensures r == StatementAmountSpec(s, separator, digits, negate)
  {
    hide Split;
    hide ByteLength;
    hide HasParenthesis;
    hide Hundredths;
    if s == "" || s[0] == '+' || HasParenthesis(s) {
      return Err(AmbiguousSign);
    }
    if negate && s[0] == '-' {
      return Err(AmbiguousSign);
    }
    var negative := s[0] == '-';
    var unsigned := if negative then s[1..] else s;
    var parts := Split(unsigned, separator);
    var whole := parts[0];
    if |parts| > 2 || whole == "" || !AllDigits(whole) {
      return Err(MalformedAmount);
    }
    var fraction := if |parts| > 1 then parts[1] else "";
    if ByteLength(fraction) > digits {
      return Err(ExcessPrecision);
    }
    if !AllDigits(fraction) {
      return Err(MalformedAmount);
    }
    assert Decimal(unsigned, separator) && fraction == Fraction(unsigned, separator);
    var value := ScaledValue(whole, fraction, digits);
    if value.None? {
      return Err(ArithmeticOverflow);
    }
    r := Ok(if negative != negate then -value.value else value.value);
  }

  /** A dot at the end and nowhere else. */
  predicate TrailingDot(s: string) {
    s != "" && s[|s| - 1] == '.' && Free(s[..|s| - 1], '.')
  }

  /** A decimal with an empty fraction behind its dot ends in that dot. */
  lemma EmptyFraction(s: string)
    ensures
      var u := Unsigned(s);
      Decimal(u, '.') && |Split(u, '.')| == 2 && Fraction(u, '.') == "" ==>
        && TrailingDot(s) && Unsigned(s[..|s| - 1]) == Whole(u, '.')
        && StartsWith(s[..|s| - 1], '-') == StartsWith(s, '-')
        && Split(Whole(u, '.'), '.') == [Whole(u, '.')]
  {
    hide Split;
    hide AllDigits;
    var u := Unsigned(s);
    SplitJoins(u, '.');
    if Decimal(u, '.') && |Split(u, '.')| == 2 && Fraction(u, '.') == "" {
      assert u == Whole(u, '.') + ['.'];
      SplitFree(Whole(u, '.'), '.');
    }
  }

  /** A text with a dot at its end splits into what is before the dot and nothing. */
  lemma TrailingDotSplits(s: string)
    requires TrailingDot(s)
    ensures
      var u := Unsigned(s);
      && u != "" && u[..|u| - 1] == Unsigned(s[..|s| - 1])
      && StartsWith(s[..|s| - 1], '-') == StartsWith(s, '-')
      && Split(u, '.') == [u[..|u| - 1], ""] && Split(u[..|u| - 1], '.') == [u[..|u| - 1]]
  {
    hide Split;
    var u := Unsigned(s);
    assert u == u[..|u| - 1] + ['.'] + "";
    SplitAt(u[..|u| - 1], "", '.');
    SplitFree("", '.');
    SplitFree(u[..|u| - 1], '.');
  }

  /**
   With a dot, two digits and no negation, statement amounts and ledger amounts agree
   on every text, except that a statement amount may also end in the separator.
   */
  lemma FormsAgree(s: string)
    ensures
      var a, b := AmountSpec(s), StatementAmountSpec(s, '.', 2, false);
      && (a.Some? ==> b == Ok(a.value))
      && (b.Ok? && a.None? ==> TrailingDot(s) && AmountSpec(s[..|s| - 1]) == Some(b.value))
      && (TrailingDot(s) && AmountSpec(s[..|s| - 1]).Some? ==> b == Ok(AmountSpec(s[..|s| - 1]).value) && a.None?)
  {
    hide Split;
    hide ByteLength;
    hide HasParenthesis;
    hide Value;
    var u := Unsigned(s);
    if Decimal(u, '.') && AllDigits(Fraction(u, '.')) {
      PlainCharacters(s);
    }
    EmptyFraction(s);
    if TrailingDot(s) {
      TrailingDotSplits(s);
    }
    hide TrailingDot;
    hide Unsigned;
  }

  /** A decimal holds nothing but digits, its separator and a leading minus. */
  lemma PlainCharacters(s: string)
    requires Decimal(Unsigned(s), '.') && AllDigits(Fraction(Unsigned(s), '.'))
    ensures s != "" && s[0] != '+' && !HasParenthesis(s)
  {
    hide Split;
    var u := Unsigned(s);
    SplitJoins(u, '.');
    var whole, fraction := Whole(u, '.'), Fraction(u, '.');
    assert u == whole || u == whole + ['.'] + fraction;
    assert u[0] == whole[0];
  }

  // ----- the accepted texts, written out

  /** `s` is an optional minus, whole digits, and where there is a fraction the separator and the fraction. */
  predicate Spells(s: string, negative: bool, whole: string, fraction: Option<string>, separator: char) {
    && s == (if negative then "-" else "") + whole + (if fraction.Some? then [separator] + fraction.value else "")
    && whole != "" && AllDigits(whole) && (fraction.Some? ==> AllDigits(fraction.value))
  }

  /** The hundredths of a whole part and a fraction of at most two digits. */
  function Minor(whole: string, fraction: Option<string>): nat
    requires AllDigits(whole) && (fraction.Some? ==> AllDigits(fraction.value) && |fraction.value| <= 2)
  {
    match fraction
    case None => 100 * Value(whole)
    case Some(f) =>
      if |f| == 0 then 100 * Value(whole)
      else if |f| == 1 then 100 * Value(whole) + 10 * Value(f)
      else 100 * Value(whole) + Value(f)
  }

  lemma DigitsFree(s: string, c: char)
    requires AllDigits(s) && !IsDigit(c)
    ensures Free(s, c)
  {
  }

  /** How a spelled text splits. */
  lemma SpelledParts(s: string, negative: bool, whole: string, fraction: Option<string>, separator: char)
    requires Spells(s, negative, whole, fraction, separator) && (separator == '.' || separator == ',')
    ensures s != "" && StartsWith(s, '-') == negative && s[0] != '+' && !HasParenthesis(s)
    ensures
      var u := Unsigned(s);
      && Split(u, separator) == [whole] + (if fraction.Some? then [fraction.value] else [])
      && Decimal(u, separator) && Whole(u, separator) == whole
      && Fraction(u, separator) == if fraction.Some? then fraction.value else ""
  {
    hide Split;
    var u := Unsigned(s);
    assert u == whole + (if fraction.Some? then [separator] + fraction.value else "");
    DigitsFree(whole, separator);
    if fraction.None? {
      assert u == whole;
      SplitFree(whole, separator);
    } else {
      DigitsFree(fraction.value, separator);
      assert u == whole + [separator] + fraction.value;
      SplitAt(whole, fraction.value, separator);
      SplitFree(fraction.value, separator);
    }
  }

  /** A decimal with a fraction of digits is spelled so. */
  lemma DecimalSpells(s: string, separator: char)
    requires Decimal(Unsigned(s), separator) && AllDigits(Fraction(Unsigned(s), separator))
    ensures
      var u := Unsigned(s);
      Spells(s, StartsWith(s, '-'), Whole(u, separator),
             if |Split(u, separator)| == 2 then Some(Fraction(u, separator)) else None, separator)
  {
    hide Split;
    var u := Unsigned(s);
    SplitJoins(u, separator);
    if |Split(u, separator)| == 2 {
      assert u == Whole(u, separator) + [separator] + Fraction(u, separator);
    } else {
      assert u == Whole(u, separator);
      assert u + "" == u;
    }
    assert s == (if StartsWith(s, '-') then "-" else "") + u;
  }

  lemma MinorHundredths(whole: string, fraction: Option<string>)
    requires AllDigits(whole) && (fraction.Some? ==> AllDigits(fraction.value) && |fraction.value| <= 2)
    ensures Hundredths(whole, if fraction.Some? then fraction.value else "") == Minor(whole, fraction)
  {
  }

  /** The ledger form: whole digits, optionally a dot and one or two digits, optionally a minus; within 64 bits. */
  ghost predicate LedgerAmount(s: string, v: int) {
    exists negative: bool, whole: string, fraction: Option<string> ::
      && Spells(s, negative, whole, fraction, '.') && (fraction.Some? ==> 1 <= |fraction.value| <= 2)
      && Minor(whole, fraction) <= I64_MAX
      && v == if negative then -(Minor(whole, fraction) as int) else Minor(whole, fraction)
  }

  lemma AmountExact(s: string, v: int)
    ensures AmountSpec(s) == Some(v) <==> LedgerAmount(s, v)
  {
    hide Split;
    hide Value;
    hide Hundredths;
    hide Minor;
    var u := Unsigned(s);
    if AmountSpec(s) == Some(v) {
      DecimalSpells(s, '.');
      var fraction := if |Split(u, '.')| == 2 then Some(Fraction(u, '.')) else None;
      assert Spells(s, StartsWith(s, '-'), Whole(u, '.'), fraction, '.');
      MinorHundredths(Whole(u, '.'), fraction);
    }
    if LedgerAmount(s, v) {
      var negative: bool, whole: string, fraction: Option<string> :|
        && Spells(s, negative, whole, fraction, '.') && (fraction.Some? ==> 1 <= |fraction.value| <= 2)
        && Minor(whole, fraction) <= I64_MAX
        && v == if negative then -(Minor(whole, fraction) as int) else Minor(whole, fraction);
      SpelledParts(s, negative, whole, fraction, '.');
      MinorHundredths(whole, fraction);
    }
  }

  /** A statement form: as many fractional digits as declared at most, and no minus where the column gives the sign. */
  ghost predicate StatementSpelled(s: string, separator: char, digits: nat, negate: bool, negative: bool, minor: nat)
    requires digits <= 2
  {
    exists whole: string, fraction: Option<string> ::
      && Spells(s, negative, whole, fraction, separator) && (fraction.Some? ==> |fraction.value| <= digits)
      && !(negate && negative) && minor == Minor(whole, fraction)
  }

  /** The text spells `v`, with the sign that a minus or the column gives. */
  ghost predicate StatementAmount(s: string, separator: char, digits: nat, negate: bool, v: int)
    requires digits <= 2
  {
    exists negative: bool, minor: nat :: StatementSpelled(s, separator, digits, negate, negative, minor)
      && minor <= I64_MAX && v == if negative != negate then -(minor as int) else minor
  }

  lemma SpelledNonEmpty(s: string, separator: char, digits: nat, negate: bool, v: int)
    requires digits <= 2 && StatementAmount(s, separator, digits, negate, v)
    ensures s != ""
  {
  }

  /** A statement amount is accepted exactly when it is spelled in the declared form and fits 64 bits. */
  lemma StatementAmountExact(s: string, separator: char, digits: nat, negate: bool, v: int)
    requires digits <= 2 && (separator == '.' || separator == ',')
    ensures StatementAmountSpec(s, separator, digits, negate) == Ok(v) <==>
      StatementAmount(s, separator, digits, negate, v)
  {
    hide Split;
    hide Value;
    hide Hundredths;
    hide Minor;
    hide Spells;
    hide ByteLength;
    hide HasParenthesis;
    var u := Unsigned(s);
    if StatementAmountSpec(s, separator, digits, negate) == Ok(v) {
      DecimalSpells(s, separator);
      var fraction := if |Split(u, separator)| == 2 then Some(Fraction(u, separator)) else None;
      MinorHundredths(Whole(u, separator), fraction);
      assert StatementSpelled(s, separator, digits, negate, StartsWith(s, '-'), Minor(Whole(u, separator), fraction));
    }
    if StatementAmount(s, separator, digits, negate, v) {
      var negative: bool, minor: nat :| StatementSpelled(s, separator, digits, negate, negative, minor)
        && minor <= I64_MAX && v == if negative != negate then -(minor as int) else minor;
      SpelledAccepted(s, separator, digits, negate, negative, minor);
    }
  }

  lemma SpelledAccepted(s: string, separator: char, digits: nat, negate: bool, negative: bool, minor: nat)
    requires digits <= 2 && (separator == '.' || separator == ',')
    requires StatementSpelled(s, separator, digits, negate, negative, minor)
    ensures StatementAmountSpec(s, separator, digits, negate) == if minor > I64_MAX then Err(ArithmeticOverflow)
      else Ok(if negative != negate then -(minor as int) else minor)
  {
    hide Split;
    hide Value;
    hide Hundredths;
    hide Minor;
    hide HasParenthesis;
    hide ByteLength;
    var whole: string, fraction: Option<string> :|
      && Spells(s, negative, whole, fraction, separator) && (fraction.Some? ==> |fraction.value| <= digits)
      && !(negate && negative) && minor == Minor(whole, fraction);
    SpelledParts(s, negative, whole, fraction, separator);
    MinorHundredths(whole, fraction);
  }

  /** Whatever else the text says: an empty text, a plus, a parenthesis or a second sign leaves the sign ambiguous. */
  lemma AmbiguousExact(s: string, separator: char, digits: nat, negate: bool)
    requires digits <= 2
    ensures StatementAmountSpec(s, separator, digits, negate) == Err(AmbiguousSign) <==>
      s == "" || "+" <= s || '(' in s || ')' in s || (negate && "-" <= s)
  {
    hide Split;
    hide Hundredths;
  }

  /** Excess precision is a fraction of more bytes than declared digits, whatever they are. */
  lemma PrecisionExact(s: string, separator: char, digits: nat, negate: bool)
    requires digits <= 2
    ensures StatementAmountSpec(s, separator, digits, negate) == Err(ExcessPrecision) <==>
      && StatementAmountSpec(s, separator, digits, negate) != Err(AmbiguousSign)
      && exists whole: string, fraction: string ::
           Behind(s, separator, whole, fraction) && ByteLength(fraction) > digits
  {
    hide Split;
    hide Hundredths;
    hide HasParenthesis;
    hide ByteLength;
    var u := Unsigned(s);
    SplitJoins(u, separator);
    if Decimal(u, separator) && |Split(u, separator)| == 2 {
      assert Behind(s, separator, Whole(u, separator), Fraction(u, separator));
    }
    if whole: string, fraction: string :| Behind(s, separator, whole, fraction) && ByteLength(fraction) > digits {
      SplitAt(whole, fraction, separator);
      SplitFree(fraction, separator);
    }
    assert ByteLength("") == 0 by { NoBytes(); }
  }

  lemma NoBytes()
    ensures ByteLength("") == 0
  {
  }

  /** Behind an optional minus stand whole digits, one separator and the fraction. */
  predicate Behind(s: string, separator: char, whole: string, fraction: string) {
    && Unsigned(s) == whole + [separator] + fraction && whole != "" && AllDigits(whole)
    && Free(whole, separator) && Free(fraction, separator)
  }

  /** More digits than declared are refused, even where they are zeros. */
  lemma ExcessRefused(s: string, separator: char, digits: nat, negate: bool, negative: bool, whole: string,
                      fraction: string)
    requires digits <= 2 && (separator == '.' || separator == ',')
    requires Spells(s, negative, whole, Some(fraction), separator) && |fraction| > digits && !(negate && negative)
    ensures StatementAmountSpec(s, separator, digits, negate) == Err(ExcessPrecision)
  {
    hide Split;
    hide Hundredths;
    hide HasParenthesis;
    SpelledParts(s, negative, whole, Some(fraction), separator);
  }
}
