/**
 * The level dialog's text box (LevelForm.cs).  Every change of its text runs a
 * handler that deletes each character the regular expression \D matches, that
 * is every character that is not a Unicode decimal digit (category Nd); the Level
 * property reads the text back with int.Parse, which only understands the ASCII
 * digits '0'..'9' and fails beyond the 32-bit range.
 */
module LevelText {
  import opened Int32

  predicate IsAsciiDigit(c: char)
  {
    '0' <= c <= '9'
  }

  /** The zero of every other block of ten decimal digits (category Nd) in the Basic
      Multilingual Plane, after the ASCII digits. */
  const OtherDigitZeros: seq<int> := [
    0x0660, 0x06F0, 0x07C0, 0x0966, 0x09E6, 0x0A66, 0x0AE6, 0x0B66, 0x0BE6,
    0x0C66, 0x0CE6, 0x0D66, 0x0DE6, 0x0E50, 0x0ED0, 0x0F20, 0x1040, 0x1090, 0x17E0,
    0x1810, 0x1946, 0x19D0, 0x1A80, 0x1A90, 0x1B50, 0x1BB0, 0x1C40, 0x1C50, 0xA620,
    0xA8D0, 0xA900, 0xA9D0, 0xA9F0, 0xAA50, 0xABF0, 0xFF10
  ]

  /** What \D does not match.  The game's strings are UTF-16: a character outside the
      Basic Multilingual Plane is a surrogate pair, and \D matches both halves. */
  predicate IsDecimalDigit(c: char)
  {
    || IsAsciiDigit(c)
    || (0x0660 <= c as int &&
        exists k :: 0 <= k < |OtherDigitZeros| && OtherDigitZeros[k] <= c as int < OtherDigitZeros[k] + 10)
  }

  predicate AllDecimalDigits(s: string)
  {
    forall i :: 0 <= i < |s| ==> IsDecimalDigit(s[i])
  }

  /** nonDigit.Replace(text, ""): the text without the characters \D matches. */
  function Filter(s: string): (r: string)
    ensures AllDecimalDigits(r)
    ensures |r| <= |s|
  {
    if |s| == 0 then []
    else
      var last := s[|s| - 1];
      Filter(s[..|s| - 1]) + (if IsDecimalDigit(last) then [last] else [])
  }

  /** Filtering works character by character and keeps the order: the filter of a
      concatenation is the concatenation of the filters. */
  lemma {:induction false} FilterAppend(a: string, b: string)
    ensures Filter(a + b) == Filter(a) + Filter(b)
    decreases |b|
  {
    if |b| == 0 {
      assert a + b == a;
    } else {
      var init := b[..|b| - 1];
      assert (a + b)[..|a + b| - 1] == a + init;
      assert (a + b)[|a + b| - 1] == b[|b| - 1];
      FilterAppend(a, init);
    }
  }

  /** A single character survives exactly when it is a decimal digit. */
  lemma FilterSingle(c: char)
    ensures Filter([c]) == (if IsDecimalDigit(c) then [c] else [])
  {
    assert [c][..0] == [];
  }

  /** Text that is all digits passes unchanged; in particular the filter is idempotent. */
  lemma {:induction false} FilterKeepsDigits(s: string)
    requires AllDecimalDigits(s)
    ensures Filter(s) == s
  {
    if |s| > 0 {
      FilterKeepsDigits(s[..|s| - 1]);
    }
  }

  lemma FilterIdempotent(s: string)
    ensures Filter(Filter(s)) == Filter(s)
  {
    FilterKeepsDigits(Filter(s));
  }

  /** The filter removes nothing exactly when the text is all digits; otherwise it is
      strictly shorter (which is how the handler tells whether to write the text back). */
  lemma {:induction false} FilterShortens(s: string)
    ensures |Filter(s)| == |s| <==> AllDecimalDigits(s)
  {
    if |s| > 0 {
      FilterShortens(s[..|s| - 1]);
      if AllDecimalDigits(s) {
        FilterKeepsDigits(s);
      }
    }
  }

  function DigitValue(c: char): int
    requires IsAsciiDigit(c)
  {
    c as int - '0' as int
  }

  /** The value of a string of ASCII digits, most significant first. */
  function Value(s: string): (v: nat)
    requires forall i :: 0 <= i < |s| ==> IsAsciiDigit(s[i])
  {
    if |s| == 0 then 0 else Value(s[..|s| - 1]) * 10 + DigitValue(s[|s| - 1])
  }

  datatype ParseError = FormatError | OverflowError

  datatype Result<T> = Ok(value: T) | Err(error: ParseError)

  /** int.Parse on a string of decimal digits: a digit other than '0'..'9' is a format
      error; a value beyond Int32.MaxValue is an overflow. */
  function ParseInt32(s: string): (r: Result<int>)
    requires |s| > 0 && AllDecimalDigits(s)
    ensures r.Ok? ==> 0 <= r.value <= MaxInt32
    ensures r == Err(FormatError) <==> exists i :: 0 <= i < |s| && !IsAsciiDigit(s[i])
    ensures (forall i :: 0 <= i < |s| ==> IsAsciiDigit(s[i])) ==>
      r == if Value(s) > MaxInt32 then Err(OverflowError) else Ok(Value(s))
  {
    if exists i :: 0 <= i < |s| && !IsAsciiDigit(s[i]) then Err(FormatError)
    else if Value(s) > MaxInt32 then Err(OverflowError)
    else Ok(Value(s))
  }

  /** The decimal digits of n, without leading zeros. */
  function NatDigits(n: nat): (s: string)
    ensures |s| > 0
    ensures forall i :: 0 <= i < |s| ==> IsAsciiDigit(s[i])
  {
    if n < 10 then [('0' as int + n) as char]
    else NatDigits(n / 10) + [('0' as int + n % 10) as char]
  }

  /** Reading the digits back gives the number. */
  lemma {:induction false} NatDigitsValue(n: nat)
    ensures Value(NatDigits(n)) == n
  {
    if n >= 10 {
      NatDigitsValue(n / 10);
      assert NatDigits(n)[..|NatDigits(n)| - 1] == NatDigits(n / 10);
    }
  }

  /** value.ToString(CultureInfo.InvariantCulture): a minus sign exactly for a negative
      value, then the ASCII digits of its magnitude. */
  function DecimalString(v: int): (s: string)
    ensures |s| > 0 && (s[0] == '-' <==> v < 0)
    ensures var digits := if v < 0 then s[1..] else s;
      && |digits| > 0
      && (forall i :: 0 <= i < |digits| ==> IsAsciiDigit(digits[i]))
      && Value(digits) == if v < 0 then -v else v
  {
    var n := if v < 0 then -v else v;
    NatDigitsValue(n);
    if v < 0 then
      assert ("-" + NatDigits(n))[1..] == NatDigits(n);
      "-" + NatDigits(n)
    else NatDigits(n)
  }

  /** Printing v and filtering the text leaves the digits of |v|: the minus sign is
      not a digit. */
  lemma FilterDecimalString(v: int)
    ensures Filter(DecimalString(v)) == NatDigits(if v < 0 then -v else v)
  {
    var digits := NatDigits(if v < 0 then -v else v);
    FilterKeepsDigits(digits);
    if v < 0 {
      FilterAppend("-", digits);
      FilterSingle('-');
    }
  }

  /** The level dialog's text box. */
  class LevelForm {
    var text: string

    /** What the text-changed handler guarantees after every change. */
    ghost predicate Valid()
      reads this
    {
      AllDecimalDigits(text)
    }

    constructor ()
      ensures text == "" && Valid()
    {
      text := "";
    }

    /** The Level getter: 1 for an empty box, otherwise int.Parse of the text. */
    function Level(): (r: Result<int>)
      reads this
      requires Valid()
      ensures |text| == 0 ==> r == Ok(1)
      ensures r.Ok? ==> r.value >= 0
      ensures |text| > 0 && r.Ok? ==>
        (forall i :: 0 <= i < |text| ==> IsAsciiDigit(text[i])) && r.value == Value(text)
      ensures |text| > 0 && (forall i :: 0 <= i < |text| ==> IsAsciiDigit(text[i])) ==>
        (r.Ok? <==> Value(text) <= MaxInt32)
    {
      if |text| == 0 then Ok(1) else ParseInt32(text)
    }

    /** txtLevel_TextChanged: drop the non-digits; writing the text back raises the
        event again, which then finds nothing to drop. */
    method TextChanged()
      modifies this
      ensures text == Filter(old(text))
      ensures Valid()
      decreases |text|
    {
      var filtered := Filter(text);
      FilterShortens(text);
      if |filtered| != |text| {
        text := filtered;
        FilterIdempotent(old(text));
        TextChanged();
      }
      else {
        FilterKeepsDigits(text);
      }
    }

    /** The user edits the box: the new text is set and the handler runs. */
    method Edit(newText: string)
      modifies this
      ensures text == Filter(newText) && Valid()
    {
      text := newText;
      TextChanged();
    }

    /** The Level setter: the invariant-culture decimal form of value, then the handler. */
    method SetLevel(value: int)
      requires MinInt32 <= value <= MaxInt32
      modifies this
      ensures Valid()
      ensures text == NatDigits(if value < 0 then -value else value)
    {
      text := DecimalString(value);
      TextChanged();
      FilterDecimalString(value);
    }
  }

  /** Setting the level and reading it back: a non-negative value comes back unchanged,
      a negative one loses its sign, and Int32.MinValue comes back as an overflow. */
  lemma LevelRoundTrip(value: int)
    requires MinInt32 <= value <= MaxInt32
    ensures var digits := NatDigits(if value < 0 then -value else value);
      AllDecimalDigits(digits) &&
      ParseInt32(digits) == if value == MinInt32 then Err(OverflowError)
                            else Ok(if value < 0 then -value else value)
  {
    var n := if value < 0 then -value else value;
    NatDigitsValue(n);
    FilterDecimalString(value);
  }
}
