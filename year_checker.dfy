/**
 * The BibTeX `year` field validator: an ordered chain of guards over the field
 * value that reports the first one that fails. The current year is a parameter
 * and the localised messages are the constructors of YearError.
 */
module YearChecker {
  import opened Wrappers
  import opened JavaStrings

  /** One constructor per message the validator can return. */
  datatype YearError =
    | NoFourDigitNumber    // "should contain a four digit number"
    | LastFourNotNumerals  // "last four nonpunctuation characters should be numerals"
    | FirstCharNotNumeral  // "First character should be numeral"
    | NotAYear             // "Not a year"
    | YearInFuture         // "Year should be smaller or equal then actual year"

  /** `([^0-9]|^)[0-9]{4}([^0-9]|$)` matches with its four digits at s[i..i+4]. */
  predicate FourDigitRunAt(s: string, i: int) {
    0 <= i && i + 4 <= |s| && AllDigits(s[i..i + 4]) &&
    (i == 0 || !IsAsciiDigit(s[i - 1])) &&
    (i + 4 == |s| || !IsAsciiDigit(s[i + 4]))
  }

  /** CONTAINS_FOUR_DIGIT: a run of exactly four digits somewhere in s. */
  predicate ContainsFourDigit(s: string)
    ensures ContainsFourDigit(s) ==> 4 <= |s|
  {
    exists i | 0 <= i <= |s| - 4 :: FourDigitRunAt(s, i)
  }

  predicate IsLineTerminator(c: char) {
    c == '\n' || c == '\r' || c == '\U{0085}' || c == '\U{2028}' || c == '\U{2029}'
  }

  /**
   * Java's `$` without MULTILINE holds at the end of the input and also just
   * before a final line terminator ("\r\n" counting as one, and never between
   * its two characters).
   */
  predicate DollarAt(s: string, i: int) {
    i == |s| ||
    (i == |s| - 1 && i >= 0 && IsLineTerminator(s[i]) && !(s[i] == '\n' && i > 0 && s[i - 1] == '\r')) ||
    (i == |s| - 2 && i >= 0 && s[i] == '\r' && s[i + 1] == '\n')
  }

  /** `[0-9]{4}$` matches with its four digits at s[i..i+4]. */
  predicate FinalDigitsAt(s: string, i: int) {
    0 <= i && i + 4 <= |s| && AllDigits(s[i..i + 4]) && DollarAt(s, i + 4)
  }

  /** Wherever `[0-9]{4}$` is found, the text ends in four digits or in a line terminator. */
  lemma FinalDigitsShape(s: string)
    ensures forall i :: FinalDigitsAt(s, i) ==> 4 <= |s| && (AllDigits(s[|s| - 4..]) || IsLineTerminator(s[|s| - 1]))
  {
    forall i | FinalDigitsAt(s, i) ensures 4 <= |s| && (AllDigits(s[|s| - 4..]) || IsLineTerminator(s[|s| - 1])) {
      if i + 4 == |s| {
        assert s[i..i + 4] == s[|s| - 4..];
      }
    }
  }

  /** ENDS_WITH_FOUR_DIGIT: `[0-9]{4}$` is found in s. */
  predicate EndsWithFourDigit(s: string)
    ensures EndsWithFourDigit(s) ==> 4 <= |s| && (AllDigits(s[|s| - 4..]) || IsLineTerminator(s[|s| - 1]))
  {
    FinalDigitsShape(s);
    exists i | 0 <= i <= |s| - 4 :: FinalDigitsAt(s, i)
  }

  /** The character class `[(){},.;!?<>%&$]`. */
  const PunctuationMarks: set<char> := {'(', ')', '{', '}', ',', '.', ';', '!', '?', '<', '>', '%', '&', '$'}

  /** `s.replaceAll(PUNCTUATION_MARKS, "")`. */
  function StripPunctuation(s: string): (t: string)
    ensures |t| <= |s|
    ensures forall i :: 0 <= i < |t| ==> t[i] !in PunctuationMarks
    ensures (forall i :: 0 <= i < |s| ==> s[i] !in PunctuationMarks) ==> t == s
    ensures |s| == 1 ==> t == (if s[0] in PunctuationMarks then [] else s)
  {
    if s == [] then []
    else (if s[0] in PunctuationMarks then [] else [s[0]]) + StripPunctuation(s[1..])
  }

  /** `checkValue`: None when the value is accepted, otherwise the first failing guard. */
  function CheckValue(value: string, currentYear: int): (r: Option<YearError>)
    ensures r.Some? ==> !IsBlank(value)
    ensures r.None? && !IsBlank(value) ==> ParseInt(value).Some? && ParseInt(value).value <= currentYear
  {
    if IsBlank(value) then None
    else if !ContainsFourDigit(Trim(value)) then Some(NoFourDigitNumber)
    else if !EndsWithFourDigit(StripPunctuation(value)) then Some(LastFourNotNumerals)
    else if |value| > 0 && !IsAsciiDigit(value[0]) then Some(FirstCharNotNumeral)
    else match ParseInt(value)
      case None => Some(NotAYear)
      case Some(year) => if currentYear < year then Some(YearInFuture) else None
  }

  /** Exactly four ASCII digits. */
  predicate IsFourDigits(value: string) {
    |value| == 4 && AllDigits(value)
  }

  lemma DigitsAreNotTrimmed(value: string)
    requires value != [] && AllDigits(value)
    ensures Trim(value) == value && !IsBlank(value)
  {
    assert !IsTrimmed(value[0]);
    assert TrimStart(value) == value;
    assert !IsTrimmed(value[|value| - 1]);
    assert TrimEnd(value) == value;
  }

  /** A digit string containing a bounded four-digit run is that run. */
  lemma {:induction false} FourDigitRunOfDigits(value: string)
    requires AllDigits(value) && ContainsFourDigit(value)
    ensures IsFourDigits(value)
  {
  }

  lemma DigitsAreNotPunctuation(value: string)
    requires AllDigits(value)
    ensures StripPunctuation(value) == value
  {
    forall i | 0 <= i < |value| ensures value[i] !in PunctuationMarks {
      assert IsAsciiDigit(value[i]);
    }
  }

  lemma {:induction false} StripPunctuationAppend(a: string, b: string)
    ensures StripPunctuation(a + b) == StripPunctuation(a) + StripPunctuation(b)
  {
    if a != [] {
      assert (a + b)[1..] == a[1..] + b;
      StripPunctuationAppend(a[1..], b);
    } else {
      assert a + b == b;
    }
  }

  lemma ParseDigits(value: string)
    requires IsFourDigits(value)
    ensures ParseInt(value) == Some(DigitsValue(value))
  {
    assert IsAsciiDigit(value[0]);
    assert Pow10(4) == 10000;
  }

  /** A four-digit value passes the first three guards and parses to its own value. */
  lemma FourDigitsPassGuards(value: string)
    requires IsFourDigits(value)
    ensures !IsBlank(value) && Trim(value) == value
    ensures ContainsFourDigit(Trim(value))
    ensures EndsWithFourDigit(StripPunctuation(value))
    ensures IsAsciiDigit(value[0])
    ensures ParseInt(value) == Some(DigitsValue(value))
  {
    DigitsAreNotTrimmed(value);
    FourDigitsContained(value);
    FourDigitsAtEnd(value);
    ParseDigits(value);
  }

  lemma FourDigitsContained(value: string)
    requires IsFourDigits(value)
    ensures ContainsFourDigit(value)
  {
    assert value[0..4] == value;
    assert FourDigitRunAt(value, 0);
  }

  lemma FourDigitsAtEnd(value: string)
    requires IsFourDigits(value)
    ensures EndsWithFourDigit(StripPunctuation(value))
  {
    DigitsAreNotPunctuation(value);
    assert value[0..4] == value;
    assert FinalDigitsAt(StripPunctuation(value), 0);
  }

  /**
   * The headline property: a non-blank value is accepted exactly when it is four
   * ASCII digits whose value is at most the current year.
   */
  lemma CheckValueAccepts(value: string, currentYear: int)
    ensures CheckValue(value, currentYear).None? <==>
            IsBlank(value) || (IsFourDigits(value) && DigitsValue(value) <= currentYear)
  {
    if IsFourDigits(value) {
      FourDigitsPassGuards(value);
    }
    if !IsBlank(value) && CheckValue(value, currentYear).None? {
      assert value != [] && IsAsciiDigit(value[0]) && ContainsFourDigit(Trim(value));
      ParsedDigits(value);
    }
  }

  /** The future-year message is given exactly to four-digit values beyond the current year. */
  lemma CheckValueFutureYear(value: string, currentYear: int)
    ensures CheckValue(value, currentYear) == Some(YearInFuture) <==>
            IsFourDigits(value) && currentYear < DigitsValue(value)
  {
    if IsFourDigits(value) {
      FourDigitsPassGuards(value);
    }
    if CheckValue(value, currentYear) == Some(YearInFuture) {
      assert !IsBlank(value) && IsAsciiDigit(value[0]);
      var year := ParseInt(value).value;
      assert AllDigits(value) && year == DigitsValue(value);
      DigitsAreNotTrimmed(value);
      FourDigitRunOfDigits(value);
    }
  }

  /**
   * The guards run in order and only the first failure is reported: each message
   * is returned exactly when the guards before it pass and its own guard fails.
   */
  lemma CheckValueFirstFailure(value: string, currentYear: int)
    ensures CheckValue(value, currentYear) == Some(NoFourDigitNumber) <==>
            !IsBlank(value) && !ContainsFourDigit(Trim(value))
    ensures CheckValue(value, currentYear) == Some(LastFourNotNumerals) <==>
            !IsBlank(value) && ContainsFourDigit(Trim(value)) && !EndsWithFourDigit(StripPunctuation(value))
    ensures CheckValue(value, currentYear) == Some(FirstCharNotNumeral) <==>
            !IsBlank(value) && ContainsFourDigit(Trim(value)) && EndsWithFourDigit(StripPunctuation(value)) &&
            !IsAsciiDigit(value[0])
    ensures CheckValue(value, currentYear) == Some(NotAYear) <==>
            !IsBlank(value) && ContainsFourDigit(Trim(value)) && EndsWithFourDigit(StripPunctuation(value)) &&
            IsAsciiDigit(value[0]) && !IsFourDigits(value)
  {
    FirstFailureFirstChar(value, currentYear);
    FirstFailureNotAYear(value, currentYear);
  }

  /** The first-character message goes to a value whose first character alone fails. */
  lemma FirstFailureFirstChar(value: string, currentYear: int)
    ensures CheckValue(value, currentYear) == Some(FirstCharNotNumeral) <==>
            !IsBlank(value) && ContainsFourDigit(Trim(value)) && EndsWithFourDigit(StripPunctuation(value)) &&
            !IsAsciiDigit(value[0])
  {
    if IsBlank(value) {
      assert CheckValue(value, currentYear).None?;
    } else if !ContainsFourDigit(Trim(value)) {
      assert CheckValue(value, currentYear) == Some(NoFourDigitNumber);
    } else if !EndsWithFourDigit(StripPunctuation(value)) {
      assert CheckValue(value, currentYear) == Some(LastFourNotNumerals);
    } else {
      assert value != [];
      if IsAsciiDigit(value[0]) {
        assert CheckValue(value, currentYear) != Some(FirstCharNotNumeral);
      }
    }
  }

  /** The not-a-year message goes to a digit-led value that passes the pattern guards but is not four digits. */
  lemma FirstFailureNotAYear(value: string, currentYear: int)
    ensures CheckValue(value, currentYear) == Some(NotAYear) <==>
            !IsBlank(value) && ContainsFourDigit(Trim(value)) && EndsWithFourDigit(StripPunctuation(value)) &&
            IsAsciiDigit(value[0]) && !IsFourDigits(value)
  {
    if !IsBlank(value) && ContainsFourDigit(Trim(value)) && EndsWithFourDigit(StripPunctuation(value)) {
      assert value != [];
      if !IsAsciiDigit(value[0]) {
      } else if ParseInt(value).Some? {
        ParsedDigits(value);
      } else if IsFourDigits(value) {
        FourDigitsPassGuards(value);
      }
    }
  }

  /** A value that starts with a digit and parses is all digits, so it has a four-digit run only when it is one. */
  lemma ParsedDigits(value: string)
    requires |value| > 0 && IsAsciiDigit(value[0]) && ParseInt(value).Some?
    ensures Trim(value) == value
    ensures ContainsFourDigit(Trim(value)) ==> IsFourDigits(value)
  {
    assert AllDigits(value);
    DigitsAreNotTrimmed(value);
    if ContainsFourDigit(Trim(value)) {
      FourDigitRunOfDigits(value);
    }
  }

  /**
   * The BibTeX manual's own example "(about 1984)" passes the first two guards
   * but is refused by the first-character guard.
   */
  lemma AboutYearRefused(currentYear: int)
    ensures CheckValue("(about 1984)", currentYear) == Some(FirstCharNotNumeral)
  {
    var v := "(about 1984)";
    AboutYearTrim(v);
    AboutYearContains(v);
    AboutYearStrip(v);
    assert !IsAsciiDigit(v[0]);
  }

  lemma AboutYearTrim(v: string)
    requires v == "(about 1984)"
    ensures Trim(v) == v && !IsBlank(v)
  {
    assert !IsTrimmed(v[0]) && TrimStart(v) == v;
    assert !IsTrimmed(v[|v| - 1]) && TrimEnd(v) == v;
  }

  lemma AboutYearContains(v: string)
    requires v == "(about 1984)"
    ensures ContainsFourDigit(v)
  {
    assert v[7..11] == "1984";
    assert FourDigitRunAt(v, 7);
  }

  lemma AboutYearStrip(v: string)
    requires v == "(about 1984)"
    ensures EndsWithFourDigit(StripPunctuation(v))
  {
    var inner := "about 1984";
    assert v == "(" + inner + ")";
    assert AllDigits(inner[|inner| - 4..]);
    InnerKept(inner);
    WrappedKeepsFinalDigits(inner);
  }

  /** Brackets around an unpunctuated text ending in four digits do not hide those digits. */
  lemma WrappedKeepsFinalDigits(inner: string)
    requires StripPunctuation(inner) == inner
    requires |inner| >= 4 && AllDigits(inner[|inner| - 4..])
    ensures EndsWithFourDigit(StripPunctuation("(" + inner + ")"))
  {
    StripBrackets(inner);
    FinalDigitsEnd(inner);
  }

  lemma StripBrackets(inner: string)
    requires StripPunctuation(inner) == inner
    ensures StripPunctuation("(" + inner + ")") == inner
  {
    StripPunctuationAppend("(" + inner, ")");
    StripPunctuationAppend("(", inner);
    assert StripPunctuation("(") == [];
    assert StripPunctuation(")") == [];
  }

  lemma FinalDigitsEnd(s: string)
    requires |s| >= 4 && AllDigits(s[|s| - 4..])
    ensures EndsWithFourDigit(s)
  {
    assert s[|s| - 4..|s|] == s[|s| - 4..];
    assert FinalDigitsAt(s, |s| - 4);
  }

  predicate IsPlain(c: char) { 'a' <= c <= 'z' || '0' <= c <= '9' || c == ' ' }

  lemma PlainNotPunctuation(c: char)
    requires IsPlain(c)
    ensures c !in PunctuationMarks
  {
  }

  lemma InnerKept(inner: string)
    requires inner == "about 1984"
    ensures StripPunctuation(inner) == inner
  {
    forall i | 0 <= i < |inner| ensures inner[i] !in PunctuationMarks {
      assert IsPlain(inner[i]);
      PlainNotPunctuation(inner[i]);
    }
  }
}
