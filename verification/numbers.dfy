/**
 * Decimal numbers as the diary prints and reads them: the 1-based entry
 * number written by `"{}".format(i)` in the listing, and Python's `int()`
 * applied to the selection the user types back.
 */
module Numbers {
  import opened Wrappers
  import Text

  predicate IsDigit(c: char) {
    '0' <= c <= '9'
  }

  function DigitValue(c: char): (d: nat)
    requires IsDigit(c)
    ensures d < 10
  {
    c as int - '0' as int
  }

  function DigitChar(d: nat): (c: char)
    requires d < 10
    ensures IsDigit(c) && DigitValue(c) == d
  {
    ('0' as int + d) as char
  }

  /** The decimal text of `n`: digits only, and no leading zero unless `n` is zero. */
  function Decimal(n: nat): (r: string)
    ensures 1 <= |r|
    ensures forall i :: 0 <= i < |r| ==> IsDigit(r[i])
    ensures 1 < |r| ==> r[0] != '0'
    decreases n
  {
    if n < 10 then [DigitChar(n)] else Decimal(n / 10) + [DigitChar(n % 10)]
  }

  predicate DigitsOrUnderscores(s: string) {
    forall i :: 0 <= i < |s| ==> IsDigit(s[i]) || s[i] == '_'
  }

  /** The value of a run of digits, reading underscores as mere separators. */
  function DigitsValue(s: string): nat
    requires DigitsOrUnderscores(s)
  {
    if |s| == 0 then 0
    else if s[|s| - 1] == '_' then DigitsValue(s[..|s| - 1])
    else 10 * DigitsValue(s[..|s| - 1]) + DigitValue(s[|s| - 1])
  }

  /**
   * The digit part `int()` accepts in base 10: ASCII digits, where single
   * underscores may separate two digits.
   */
  predicate IsDigitGroup(s: string) {
    && 0 < |s|
    && DigitsOrUnderscores(s)
    && IsDigit(s[0]) && IsDigit(s[|s| - 1])
    && forall i :: 0 <= i < |s| - 1 ==> !(s[i] == '_' && s[i + 1] == '_')
  }

  function ParseUnsigned(s: string): (r: Option<nat>)
    ensures r.Some? <==> IsDigitGroup(s)
  {
    if IsDigitGroup(s) then Some(DigitsValue(s)) else None
  }

  /**
   * A stripped `int()` argument: accepted exactly when it is one optional
   * sign followed by a digit group, whose value it then carries.
   */
  function ParseSigned(t: string): (r: Option<int>)
    ensures r.Some? <==> IsDigitGroup(t) || (0 < |t| && (t[0] == '-' || t[0] == '+') && IsDigitGroup(t[1..]))
    ensures IsDigitGroup(t) ==> r == Some(DigitsValue(t) as int)
    ensures 0 < |t| && t[0] == '+' && IsDigitGroup(t[1..]) ==> r == Some(DigitsValue(t[1..]) as int)
    ensures 0 < |t| && t[0] == '-' && IsDigitGroup(t[1..]) ==> r == Some(-(DigitsValue(t[1..]) as int))
  {
    if 0 < |t| && (t[0] == '-' || t[0] == '+') then
      assert !IsDigitGroup(t);
      match ParseUnsigned(t[1..])
      case None => None
      case Some(v) => if t[0] == '-' then Some(-(v as int)) else Some(v)
    else
      ParseUnsigned(t)
  }

  /**
   * Python's `int(s)` in base 10: the whitespace `int()` skips is stripped,
   * then one optional sign and a digit group must remain; anything else is a
   * `ValueError`, here `None`.
   */
  function ParseInt(s: string): (r: Option<int>)
    ensures var t := Text.StripOf(Text.IntSpaces, s);
      r.Some? <==> IsDigitGroup(t) || (0 < |t| && (t[0] == '-' || t[0] == '+') && IsDigitGroup(t[1..]))
    ensures var t := Text.StripOf(Text.IntSpaces, s);
      IsDigitGroup(t) ==> r == Some(DigitsValue(t) as int)
    ensures var t := Text.StripOf(Text.IntSpaces, s);
      0 < |t| && t[0] == '+' && IsDigitGroup(t[1..]) ==> r == Some(DigitsValue(t[1..]) as int)
    ensures var t := Text.StripOf(Text.IntSpaces, s);
      0 < |t| && t[0] == '-' && IsDigitGroup(t[1..]) ==> r == Some(-(DigitsValue(t[1..]) as int))
  {
    ParseSigned(Text.StripOf(Text.IntSpaces, s))
  }

  /** The ASCII separator U+001C in front of a digit stops `int()`. */
  lemma IntKeepsSeparator(s: string)
    requires s == "\U{1C}1"
    ensures ParseInt(s) == None
  {
    assert !Text.Blank(Text.IntSpaces, s[0]) && !Text.Blank(Text.IntSpaces, s[1]);
    Text.StripNoSpace(Text.IntSpaces, s);
    assert !IsDigit(s[0]) && s[0] != '-' && s[0] != '+';
  }

  /** `str.strip()` removes the ASCII separator U+001C in front of a digit. */
  lemma StripDropsSeparator(s: string)
    requires s == "\U{1C}1"
    ensures Text.Strip(s) == "1"
  {
    var w := Text.StrSpaces;
    assert Text.LeadingSpaces(w, s) == 1 by {
      assert Text.Blank(w, s[0]) && !Text.Blank(w, s[1]);
      assert s[1..][0] == s[1];
    }
    assert Text.TrimStart(w, s) == "1";
    assert Text.TrailingSpaces(w, "1") == 0;
  }

  /**
   * `int()` skips less whitespace than `str.strip()`: the ASCII separator
   * U+001C is whitespace to `strip()` but makes `int()` fail.
   */
  lemma SeparatorIsNotSkipped()
    ensures Text.Strip("\U{1C}1") == "1"
    ensures ParseInt("\U{1C}1") == None
  {
    IntKeepsSeparator("\U{1C}1");
    StripDropsSeparator("\U{1C}1");
  }

  /** A signed digit group holds at least one digit. */
  lemma ParseSignedNeedsDigit(t: string)
    ensures ParseSigned(t).Some? ==> exists i :: 0 <= i < |t| && IsDigit(t[i])
  {
    if 0 < |t| && (t[0] == '-' || t[0] == '+') {
      if ParseUnsigned(t[1..]).Some? {
        assert t[1..][0] == t[1];
      }
    } else if ParseUnsigned(t).Some? {
      assert IsDigit(t[0]);
    }
  }

  /** `int()` raises `ValueError` on every text without a digit. */
  lemma ParseIntNeedsDigit(s: string)
    ensures ParseInt(s).Some? ==> exists c :: c in s && IsDigit(c)
  {
    var t := Text.StripOf(Text.IntSpaces, s);
    ParseSignedNeedsDigit(t);
    Text.StripKeepsChars(Text.IntSpaces, s);
    if ParseInt(s).Some? {
      var i :| 0 <= i < |t| && IsDigit(t[i]);
      assert t[i] in t;
    }
  }

  lemma {:induction false} DecimalValue(n: nat)
    ensures DigitsOrUnderscores(Decimal(n))
    ensures DigitsValue(Decimal(n)) == n
    decreases n
  {
    if n >= 10 {
      DecimalValue(n / 10);
      var d := Decimal(n);
      assert d[..|d| - 1] == Decimal(n / 10);
    }
  }

  /** A run of plain digits is a digit group read without a sign. */
  lemma ParseSignedDigits(d: string)
    requires 0 < |d|
    requires forall i :: 0 <= i < |d| ==> IsDigit(d[i])
    ensures IsDigitGroup(d)
    ensures ParseSigned(d) == ParseUnsigned(d)
  {
    assert IsDigit(d[0]) && IsDigit(d[|d| - 1]);
  }

  lemma DigitsAreStripped(d: string)
    requires forall i :: 0 <= i < |d| ==> IsDigit(d[i])
    ensures Text.StripOf(Text.IntSpaces, d) == d
  {
    forall i | 0 <= i < |d|
      ensures !Text.Blank(Text.IntSpaces, d[i])
    {
      assert IsDigit(d[i]);
    }
    Text.StripNoSpace(Text.IntSpaces, d);
  }

  /** Reading back a printed entry number gives that number: `int(str(n)) == n`. */
  lemma DecimalRoundTrip(n: nat)
    ensures ParseInt(Decimal(n)) == Some(n)
  {
    var d := Decimal(n);
    DecimalValue(n);
    DigitsAreStripped(d);
    assert ParseInt(d) == ParseSigned(d);
    ParseSignedDigits(d);
    assert ParseUnsigned(d) == Some(DigitsValue(d));
  }
}
