/**
 * The string normalisation the diary applies to everything the user types:
 * Python's `str.strip()` (surrounding whitespace removed) and `str.lower()`,
 * and the one-letter answers and keys compared after `.lower().strip()`.
 */
module Text {

  /** Python's `str.isspace()` for one character: the code points Python treats as whitespace. */
  predicate IsSpace(c: char) {
    var n := c as int;
    || (0x09 <= n <= 0x0D) || (0x1C <= n <= 0x20) || n == 0x85 || n == 0xA0 || n == 0x1680
    || (0x2000 <= n <= 0x200A) || n == 0x2028 || n == 0x2029 || n == 0x202F || n == 0x205F
    || n == 0x3000
  }

  /**
   * The whitespace `int()` skips around a number: `str.isspace()` without the
   * four ASCII separators U+001C..U+001F, which `int()` does not skip.
   */
  predicate IsIntSpace(c: char) {
    IsSpace(c) && !(0x1C <= c as int <= 0x1F)
  }

  /** Which whitespace a strip removes: that of `str.strip()`, or that of `int()`. */
  datatype Spaces = StrSpaces | IntSpaces

  predicate Blank(w: Spaces, c: char) {
    match w
    case StrSpaces => IsSpace(c)
    case IntSpaces => IsIntSpace(c)
  }

  predicate AllBlank(w: Spaces, s: string) {
    forall i :: 0 <= i < |s| ==> Blank(w, s[i])
  }

  predicate AllSpace(s: string) {
    AllBlank(StrSpaces, s)
  }

  /** The number of whitespace characters `s` starts with. */
  function LeadingSpaces(w: Spaces, s: string): (n: nat)
    ensures n <= |s|
    ensures forall i :: 0 <= i < n ==> Blank(w, s[i])
    ensures n == |s| || !Blank(w, s[n])
  {
    if |s| > 0 && Blank(w, s[0]) then
      var t := s[1..];
      var m := LeadingSpaces(w, t);
      assert forall i :: 1 <= i < 1 + m ==> s[i] == t[i - 1];
      1 + m
    else
      0
  }

  /** The number of whitespace characters `s` ends with. */
  function TrailingSpaces(w: Spaces, s: string): (n: nat)
    ensures n <= |s|
    ensures forall i :: |s| - n <= i < |s| ==> Blank(w, s[i])
    ensures n == |s| || !Blank(w, s[|s| - 1 - n])
  {
    if |s| > 0 && Blank(w, s[|s| - 1]) then 1 + TrailingSpaces(w, s[..|s| - 1]) else 0
  }

  /** `s.lstrip()`: the suffix left after dropping every leading whitespace character. */
  function TrimStart(w: Spaces, s: string): string {
    s[LeadingSpaces(w, s)..]
  }

  /** `s.rstrip()`: the prefix left after dropping every trailing whitespace character. */
  function TrimEnd(w: Spaces, s: string): string {
    s[..|s| - TrailingSpaces(w, s)]
  }

  /**
   * Stripping the whitespace of class `w`: the slice of `s` left between a
   * whitespace-only prefix and a whitespace-only suffix, with no whitespace at
   * either end. It is empty exactly when `s` is whitespace only.
   */
  function StripOf(w: Spaces, s: string): (r: string)
    ensures exists a, b :: 0 <= a <= b <= |s| && r == s[a..b] && AllBlank(w, s[..a]) && AllBlank(w, s[b..])
    ensures r == [] || (!Blank(w, r[0]) && !Blank(w, r[|r| - 1]))
    ensures r == [] <==> AllBlank(w, s)
  {
    var a := LeadingSpaces(w, s);
    var t := TrimStart(w, s);
    var m := TrailingSpaces(w, t);
    var b := |s| - m;
    var r := TrimEnd(w, t);
    assert r == s[a..b];
    assert AllBlank(w, s[..a]) by {
      forall i | 0 <= i < a
        ensures Blank(w, s[..a][i])
      {
        assert s[..a][i] == s[i];
      }
    }
    assert AllBlank(w, s[b..]) by {
      forall i | 0 <= i < m
        ensures Blank(w, s[b..][i])
      {
        assert s[b..][i] == t[|t| - m + i];
      }
    }
    if t == [] then
      r
    else
      assert t[0] == s[a];
      assert m < |t|;
      assert r[0] == t[0];
      r
  }

  /** Python's `s.strip()`. */
  function Strip(s: string): string {
    StripOf(StrSpaces, s)
  }

  /** Stripping only removes characters. */
  lemma StripKeepsChars(w: Spaces, s: string)
    ensures forall c :: c in StripOf(w, s) ==> c in s
  {
    var a := LeadingSpaces(w, s);
    var t := TrimStart(w, s);
    var r := TrimEnd(w, t);
    forall c | c in r
      ensures c in s
    {
      var i :| 0 <= i < |r| && r[i] == c;
      assert s[a + i] == c;
    }
  }

  /** Text without any whitespace is its own stripped form. */
  lemma StripNoSpace(w: Spaces, s: string)
    requires forall i :: 0 <= i < |s| ==> !Blank(w, s[i])
    ensures StripOf(w, s) == s
  {
    if 0 < |s| {
      assert !Blank(w, s[0]) && !Blank(w, s[|s| - 1]);
    }
    assert LeadingSpaces(w, s) == 0;
    assert s[0..] == s;
    assert TrailingSpaces(w, s) == 0;
    assert s[..|s|] == s;
  }

  /** Python's `c.lower()` on ASCII letters; every other character is left as it is. */
  function LowerChar(c: char): char {
    if 'A' <= c <= 'Z' then (c as int - 'A' as int + 'a' as int) as char else c
  }

  function UpperChar(c: char): char
    requires 'a' <= c <= 'z'
  {
    (c as int - 'a' as int + 'A' as int) as char
  }

  function Lower(s: string): (r: string)
    ensures |r| == |s|
    ensures forall i :: 0 <= i < |s| ==> r[i] == LowerChar(s[i])
  {
    seq(|s|, i requires 0 <= i < |s| => LowerChar(s[i]))
  }

  /** The `.lower().strip()` every menu key and yes/no answer goes through. */
  function Normalize(s: string): string {
    Strip(Lower(s))
  }

  /** No ASCII letter is whitespace, so lowering keeps whitespace and non-whitespace apart. */
  lemma SpaceLower(c: char)
    ensures IsSpace(LowerChar(c)) == IsSpace(c)
  {
  }

  lemma LowerSuffix(s: string, a: nat)
    requires a <= |s|
    ensures Lower(s)[a..] == Lower(s[a..])
  {
  }

  lemma LowerPrefix(s: string, n: nat)
    requires n <= |s|
    ensures Lower(s)[..n] == Lower(s[..n])
  {
  }

  /** Two texts with whitespace at the same positions start with as many whitespace characters. */
  lemma LeadingSpacesSame(w: Spaces, s: string, u: string)
    requires |s| == |u|
    requires forall i :: 0 <= i < |s| ==> Blank(w, s[i]) == Blank(w, u[i])
    ensures LeadingSpaces(w, s) == LeadingSpaces(w, u)
  {
  }

  /** Two texts with whitespace at the same positions end with as many whitespace characters. */
  lemma TrailingSpacesSame(w: Spaces, s: string, u: string)
    requires |s| == |u|
    requires forall i :: 0 <= i < |s| ==> Blank(w, s[i]) == Blank(w, u[i])
    ensures TrailingSpaces(w, s) == TrailingSpaces(w, u)
  {
  }

  /** Lowering keeps whitespace at the same positions. */
  lemma SpacesOfLower(s: string)
    ensures forall i :: 0 <= i < |s| ==> IsSpace(Lower(s)[i]) == IsSpace(s[i])
  {
    forall i | 0 <= i < |s|
      ensures IsSpace(Lower(s)[i]) == IsSpace(s[i])
    {
      SpaceLower(s[i]);
    }
  }

  /** Lowering and stripping commute: no ASCII letter is whitespace. */
  lemma NormalizeIsLowerOfStrip(s: string)
    ensures Normalize(s) == Lower(Strip(s))
  {
    var w := StrSpaces;
    var a := LeadingSpaces(w, s);
    var t := s[a..];
    SpacesOfLower(s);
    LeadingSpacesSame(w, s, Lower(s));
    LowerSuffix(s, a);
    assert TrimStart(w, Lower(s)) == Lower(t);
    var b := TrailingSpaces(w, t);
    SpacesOfLower(t);
    TrailingSpacesSame(w, t, Lower(t));
    LowerPrefix(t, |t| - b);
    assert TrimEnd(w, Lower(t)) == Lower(TrimEnd(w, t));
  }

  /** Lowering a string yields the one-letter key `k` exactly when the string is `k` in either case. */
  lemma LowerIsKey(t: string, k: char)
    requires 'a' <= k <= 'z'
    ensures Lower(t) == [k] <==> t == [k] || t == [UpperChar(k)]
  {
    if Lower(t) == [k] {
      assert t == [t[0]];
    }
    if t == [k] || t == [UpperChar(k)] {
      assert Lower(t) == [LowerChar(t[0])];
    }
  }

  /** `answer.lower().strip() == k`: how the diary compares every menu key and yes/no answer. */
  predicate IsKey(answer: string, k: char) {
    Normalize(answer) == [k]
  }

  /**
   * An answer is the one-letter key `k` exactly when the stripped answer is
   * `k` in either case.
   */
  lemma KeyMatch(answer: string, k: char)
    requires 'a' <= k <= 'z'
    ensures IsKey(answer, k) <==> Strip(answer) == [k] || Strip(answer) == [UpperChar(k)]
  {
    NormalizeIsLowerOfStrip(answer);
    LowerIsKey(Strip(answer), k);
  }

  /** The only answers that confirm a deletion. */
  lemma YesAnswers(answer: string)
    ensures IsKey(answer, 'y') <==> Strip(answer) in {"y", "Y"}
  {
    KeyMatch(answer, 'y');
  }

  /** The only answers that decline saving an entry. */
  lemma NoAnswers(answer: string)
    ensures IsKey(answer, 'n') <==> Strip(answer) in {"n", "N"}
  {
    KeyMatch(answer, 'n');
  }
}
