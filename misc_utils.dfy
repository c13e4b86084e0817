/**
 * The string helpers of `Miscellaneous`: `sanitize` (used to build usernames),
 * `createValidFilename` and `generateSuffix`.
 */
module MiscellaneousUtils {
  import opened Wrappers
  import Decimal

  predicate IsAsciiUpper(c: char) { 'A' <= c <= 'Z' }
  predicate IsAsciiLower(c: char) { 'a' <= c <= 'z' }
  predicate IsAsciiDigit(c: char) { '0' <= c <= '9' }

  /** The class `[a-z0-9]` that `sanitize` keeps. */
  predicate IsLowerAlnum(c: char) { IsAsciiLower(c) || IsAsciiDigit(c) }

  function AsciiLower(c: char): (d: char)
    ensures IsAsciiUpper(c) ==> IsAsciiLower(d)
    ensures !IsAsciiUpper(c) ==> d == c
  {
    if IsAsciiUpper(c) then (c as int + 32) as char else c
  }

  // ---------------------------------------------------------------------------
  // sanitize(str) = str.toLowerCase().replace(/[^a-z0-9]/g, '')

  /**
   * What survives of one character: its lower-case form filtered to `[a-z0-9]`.
   * Apart from ASCII letters and digits only two code points lower-case to text
   * holding an ASCII letter: U+0130 (to "i" followed by U+0307) and the Kelvin
   * sign U+212A (to "k").
   */
  function SanitizeChar(c: char): (r: string)
    ensures |r| <= 1
    ensures IsLowerAlnum(c) ==> r == [c]
  {
    if IsLowerAlnum(c) then [c]
    else if IsAsciiUpper(c) then [AsciiLower(c)]
    else if c == 'İ' then "i"
    else if c == 'K' then "k"
    else ""
  }

  function Sanitize(s: string): (r: string)
    ensures |r| <= |s|
    ensures forall i :: 0 <= i < |r| ==> IsLowerAlnum(r[i])
  {
    if s == [] then [] else SanitizeChar(s[0]) + Sanitize(s[1..])
  }

  /** A string made of `[a-z0-9]` alone is left as it is, and only such a string is. */
  lemma {:induction false} SanitizeFixedPoints(s: string)
    ensures Sanitize(s) == s <==> forall i :: 0 <= i < |s| ==> IsLowerAlnum(s[i])
  {
    if s != [] {
      SanitizeFixedPoints(s[1..]);
    }
  }

  lemma SanitizeIdempotent(s: string)
    ensures Sanitize(Sanitize(s)) == Sanitize(s)
  {
    SanitizeFixedPoints(Sanitize(s));
  }

  // ---------------------------------------------------------------------------
  // createValidFilename(filename, maxLength?)

  /** The class `[A-Za-z0-9.]` that the first replacement keeps. */
  predicate IsFilenameChar(c: char) {
    IsAsciiUpper(c) || IsAsciiLower(c) || IsAsciiDigit(c) || c == '.'
  }

  /** The characters a valid filename may hold at the end: `[a-z0-9._]`. */
  predicate IsOutputChar(c: char) {
    IsLowerAlnum(c) || c == '.' || c == '_'
  }

  /**
   * `replace(/[^A-Za-z0-9.]/g, '_')`. The regular expression has no `u` flag, so it
   * works on UTF-16 code units: a code point above U+FFFF is two units and becomes "__".
   */
  function ReplaceInvalid(s: string): (r: string)
    ensures forall i :: 0 <= i < |r| ==> IsFilenameChar(r[i]) || r[i] == '_'
    ensures |r| >= |s|
  {
    if s == [] then []
    else (if IsFilenameChar(s[0]) then [s[0]] else if s[0] as int > 0xFFFF then "__" else "_")
         + ReplaceInvalid(s[1..])
  }

  /** Removes the leading run of periods (`^\.+`). */
  function StripLeadingDots(s: string): (r: string)
    ensures |r| <= |s| && r == s[|s| - |r|..]
    ensures r == [] || r[0] != '.'
  {
    if s != [] && s[0] == '.' then StripLeadingDots(s[1..]) else s
  }

  /** Removes the trailing run of periods (`\.+$`). */
  function StripTrailingDots(s: string): (r: string)
    ensures |r| <= |s| && r == s[..|r|]
    ensures r == [] || r[|r| - 1] != '.'
  {
    if s != [] && s[|s| - 1] == '.' then StripTrailingDots(s[..|s| - 1]) else s
  }

  /**
   * `if (maxLength && s.length > maxLength) s = s.substring(0, maxLength)`:
   * an absent or zero `maxLength` is falsy; `substring` clamps a negative end to 0.
   */
  function Truncate(s: string, maxLength: Option<int>): (r: string)
  {
    if maxLength.Some? && maxLength.value != 0 && |s| > maxLength.value
    then s[..if maxLength.value < 0 then 0 else maxLength.value]
    else s
  }

  function ToLowerAscii(s: string): (r: string)
    ensures |r| == |s|
    ensures forall i :: 0 <= i < |s| ==> r[i] == AsciiLower(s[i])
  {
    if s == [] then [] else [AsciiLower(s[0])] + ToLowerAscii(s[1..])
  }

  /** Replacement and period stripping: everything `createValidFilename` does before truncation. */
  function Cleaned(filename: string): (r: string)
    ensures forall i :: 0 <= i < |r| ==> IsFilenameChar(r[i]) || r[i] == '_'
    ensures r == [] || (r[0] != '.' && r[|r| - 1] != '.')
  {
    var replaced := ReplaceInvalid(filename);
    var t := StripLeadingDots(replaced);
    var u := StripTrailingDots(t);
    assert u == [] || u[0] == t[0];
    u
  }

  function CreateValidFilename(filename: string, maxLength: Option<int>): (r: string)
  {
    ToLowerAscii(Truncate(Cleaned(filename), maxLength))
  }

  /** Every character of the result is in `[a-z0-9._]`, and the result never starts with a period. */
  lemma CreateValidFilenameChars(filename: string, maxLength: Option<int>)
    ensures var r := CreateValidFilename(filename, maxLength);
            (forall i :: 0 <= i < |r| ==> IsOutputChar(r[i])) && (r == [] || r[0] != '.')
  {
    var c := Cleaned(filename);
    var t := Truncate(c, maxLength);
    assert forall i :: 0 <= i < |t| ==> t[i] == c[i];
  }

  /** With `maxLength` positive the result is at most `maxLength` long. */
  lemma CreateValidFilenameBounded(filename: string, m: int)
    requires m > 0
    ensures |CreateValidFilename(filename, Some(m))| <= m
  {
  }

  /**
   * Truncation runs after stripping: the result with a limit is the first `m`
   * characters of the result without one; an absent or zero limit changes nothing.
   */
  lemma CreateValidFilenameTruncates(filename: string, m: int)
    requires m > 0
    ensures var full := CreateValidFilename(filename, None);
            CreateValidFilename(filename, Some(m)) == if |full| > m then full[..m] else full
    ensures CreateValidFilename(filename, Some(0)) == CreateValidFilename(filename, None)
  {
    var c := Cleaned(filename);
    var full := ToLowerAscii(c);
    if |c| > m {
      assert ToLowerAscii(c[..m]) == full[..m];
    }
  }

  /** Without truncation the result neither starts nor ends with a period. */
  lemma CreateValidFilenameNoEdgeDots(filename: string)
    ensures var r := CreateValidFilename(filename, None);
            r == [] || (r[0] != '.' && r[|r| - 1] != '.')
  {
  }

  lemma {:induction false} ToLowerAsciiOfOutput(s: string)
    requires forall i :: 0 <= i < |s| ==> IsOutputChar(s[i])
    ensures ToLowerAscii(s) == s
  {
    if s != [] { ToLowerAsciiOfOutput(s[1..]); }
  }

  lemma {:induction false} ReplaceInvalidOfValid(s: string)
    requires forall i :: 0 <= i < |s| ==> IsFilenameChar(s[i]) || s[i] == '_'
    ensures ReplaceInvalid(s) == s
  {
    if s != [] {
      if s[0] == '_' { assert !IsFilenameChar(s[0]) && s[0] as int <= 0xFFFF; }
      ReplaceInvalidOfValid(s[1..]);
    }
  }

  /** Without `maxLength`, cleaning a cleaned filename changes nothing. */
  lemma CreateValidFilenameIdempotent(filename: string)
    ensures var r := CreateValidFilename(filename, None);
            CreateValidFilename(r, None) == r
  {
    var r := CreateValidFilename(filename, None);
    CreateValidFilenameChars(filename, None);
    CreateValidFilenameNoEdgeDots(filename);
    assert forall i :: 0 <= i < |r| ==> IsFilenameChar(r[i]) || r[i] == '_' by {
      forall i | 0 <= i < |r| ensures IsFilenameChar(r[i]) || r[i] == '_' {
        assert IsOutputChar(r[i]);
      }
    }
    ReplaceInvalidOfValid(r);
    ToLowerAsciiOfOutput(r);
  }

  // ---------------------------------------------------------------------------
  // generateSuffix(length = 4) = crypto.randomInt(10 ** (length - 1), 10 ** length).toString()

  /**
   * `crypto.randomInt(min, max)` returns an integer in [min, max): the random draw is
   * the parameter `draw`, reduced into the range. It throws when `min` is not an
   * integer (length < 1) or when max - min exceeds 2^48 - 1 (length > 14); the
   * suffix is then `None`.
   */
  function GenerateSuffix(length: int, draw: nat): (r: Option<string>)
    ensures r.Some? <==> 1 <= length <= 14
    ensures r.Some? ==> |r.value| == length && Decimal.AllDigits(r.value) && r.value[0] != '0'
  {
    if length < 1 || length > 14 then None
    else
      var v := RandomInt(length, draw);
      Decimal.NatToStringLength(v, length);
      Some(Decimal.NatToString(v))
  }

  /** `crypto.randomInt(10 ** (length - 1), 10 ** length)` for the draw `draw`. */
  function RandomInt(length: int, draw: nat): (v: nat)
    requires 1 <= length <= 14
    ensures Decimal.Pow10(length - 1) <= v < Decimal.Pow10(length)
  {
    var lo := Decimal.Pow10(length - 1);
    var hi := Decimal.Pow10(length);
    assert hi == 10 * lo;
    lo + draw % (hi - lo)
  }

  /** The suffix read as a number lies in [10^(length-1), 10^length). */
  lemma GenerateSuffixInRange(length: int, draw: nat)
    requires 1 <= length <= 14
    ensures var s := GenerateSuffix(length, draw).value;
            Decimal.Pow10(length - 1) <= Decimal.ParseDecimal(s) < Decimal.Pow10(length)
  {
    Decimal.ParseNatToString(RandomInt(length, draw));
  }

  /** Every number in the range is a possible suffix. */
  lemma GenerateSuffixCoversRange(length: int, v: nat)
    requires 1 <= length <= 14
    requires Decimal.Pow10(length - 1) <= v < Decimal.Pow10(length)
    ensures GenerateSuffix(length, v - Decimal.Pow10(length - 1)) == Some(Decimal.NatToString(v))
  {
    var lo, hi := Decimal.Pow10(length - 1), Decimal.Pow10(length);
    ModOfSmaller(v - lo, hi - lo);
    assert RandomInt(length, v - lo) == v;
  }

  /** Reducing a draw already below the range width leaves it as it is. */
  lemma ModOfSmaller(d: nat, m: int)
    requires d < m
    ensures d % m == d
  {
  }

  // ---------------------------------------------------------------------------
  // Finding: the documented "does not end with a period" fails after truncation.

  /** `createValidFilename("a.b", 2)` is "a.", which ends with a period. */
  lemma TruncationLeavesTrailingDot()
    ensures CreateValidFilename("a.b", Some(2)) == "a."
  {
    var s := "a.b";
    assert IsFilenameChar(s[0]) && IsFilenameChar(s[1]) && IsFilenameChar(s[2]);
    ReplaceInvalidOfValid(s);
    assert StripLeadingDots(s) == s;
    assert StripTrailingDots(s) == s;
    assert Cleaned(s) == s;
    var t := s[..2];
    assert t == "a.";
    assert Truncate(s, Some(2)) == t;
    ToLowerAsciiOfOutput(t);
  }

  /** A name that cleans to lower-case text longer than the limit is cut to its first `m` characters. */
  lemma CleanTruncation(filename: string, m: int)
    requires 0 < m < |Cleaned(filename)|
    requires forall i :: 0 <= i < |Cleaned(filename)| ==> IsOutputChar(Cleaned(filename)[i])
    ensures CreateValidFilename(filename, Some(m)) == Cleaned(filename)[..m]
  {
    var c := Cleaned(filename);
    ToLowerAsciiOfOutput(c[..m]);
  }

  /** The intended helper: truncate first, then strip the periods. */
  function CreateValidFilenameCorrected(filename: string, maxLength: Option<int>): (r: string)
  {
    var t := Truncate(ReplaceInvalid(filename), maxLength);
    ToLowerAscii(StripTrailingDots(StripLeadingDots(t)))
  }

  /**
   * The corrected helper keeps every promise of the documentation: only `[a-z0-9._]`,
   * no period at either end, at most `maxLength` characters when that is positive.
   */
  lemma CreateValidFilenameCorrectedSound(filename: string, maxLength: Option<int>)
    ensures var r := CreateValidFilenameCorrected(filename, maxLength);
            && (forall i :: 0 <= i < |r| ==> IsOutputChar(r[i]))
            && (r == [] || (r[0] != '.' && r[|r| - 1] != '.'))
            && (maxLength.Some? && maxLength.value > 0 ==> |r| <= maxLength.value)
  {
    var rep := ReplaceInvalid(filename);
    var t := Truncate(rep, maxLength);
    TruncatePrefix(rep, maxLength);
    var a := StripLeadingDots(t);
    var b := StripTrailingDots(a);
    StrippedChars(t);
    assert b == [] || b[0] == a[0];
  }

  lemma TruncatePrefix(s: string, maxLength: Option<int>)
    ensures var t := Truncate(s, maxLength);
            |t| <= |s| && t == s[..|t|]
            && (maxLength.Some? && maxLength.value > 0 ==> |t| <= maxLength.value)
  {
  }

  /** Stripping periods on both ends keeps a subsequence of the characters. */
  lemma StrippedChars(t: string)
    requires forall i :: 0 <= i < |t| ==> IsFilenameChar(t[i]) || t[i] == '_'
    ensures var b := StripTrailingDots(StripLeadingDots(t));
            forall i :: 0 <= i < |b| ==> IsFilenameChar(b[i]) || b[i] == '_'
  {
    var a := StripLeadingDots(t);
    assert forall i :: 0 <= i < |a| ==> IsFilenameChar(a[i]) || a[i] == '_' by {
      forall i | 0 <= i < |a| ensures IsFilenameChar(a[i]) || a[i] == '_' {
        assert a[i] == t[|t| - |a| + i];
      }
    }
    var b := StripTrailingDots(a);
    forall i | 0 <= i < |b| ensures IsFilenameChar(b[i]) || b[i] == '_' {
      assert b[i] == a[i];
    }
  }
}
