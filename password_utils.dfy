/**
 * `PasswordUtils`: the strength rule and the hex text of random tokens.
 * Hashing and comparing (bcrypt) are not modelled here: callers receive the
 * comparison as an uninterpreted relation `matches(plain, hash)` and the new
 * hash as a parameter.
 */
module PasswordUtils {

  predicate IsUpper(c: char) { 'A' <= c <= 'Z' }
  predicate IsLower(c: char) { 'a' <= c <= 'z' }
  /** `\d` without the `u` flag: ASCII digits only. */
  predicate IsDigit(c: char) { '0' <= c <= '9' }

  /** The class `[!@#$%^&*(),.?":{}|<>]` of `isStrongPassword`. */
  predicate IsStrongSpecial(c: char) {
    c in "!@#$%^&*(),.?\":{}|<>"
  }

  /** JavaScript's `length`: UTF-16 code units, two for a code point above U+FFFF. */
  function Utf16Length(s: string): (n: nat)
    ensures |s| <= n <= 2 * |s|
  {
    if s == [] then 0 else (if s[0] as int > 0xFFFF then 2 else 1) + Utf16Length(s[1..])
  }

  ghost predicate Contains(s: string, p: char -> bool) {
    exists i :: 0 <= i < |s| && p(s[i])
  }

  /** `/[...]/.test(s)`: a left-to-right scan for a character of the class. */
  function Test(s: string, p: char -> bool): (r: bool)
    ensures r <==> Contains(s, p)
  {
    if s == [] then false
    else if p(s[0]) then true
    else
      var r := Test(s[1..], p);
      assert Contains(s[1..], p) ==> Contains(s, p) by {
        if Contains(s[1..], p) {
          var i :| 0 <= i < |s[1..]| && p(s[1..][i]);
          assert p(s[i + 1]);
        }
      }
      assert Contains(s, p) ==> Contains(s[1..], p) by {
        if Contains(s, p) {
          var i :| 0 <= i < |s| && p(s[i]);
          assert i != 0;
          assert p(s[1..][i - 1]);
        }
      }
      r
  }

  function IsStrongPassword(password: string): (r: bool)
    ensures r <==> && Utf16Length(password) >= 8
                   && Contains(password, IsUpper)
                   && Contains(password, IsLower)
                   && Contains(password, IsDigit)
                   && Contains(password, IsStrongSpecial)
  {
    var hasUpperCase := Test(password, IsUpper);
    var hasLowerCase := Test(password, IsLower);
    var hasNumbers := Test(password, IsDigit);
    var hasSpecialChars := Test(password, IsStrongSpecial);
    var isLongEnough := Utf16Length(password) >= 8;
    hasUpperCase && hasLowerCase && hasNumbers && hasSpecialChars && isLongEnough
  }

  /** A password shorter than 8 code units is never strong, whatever it holds. */
  lemma ShortPasswordIsWeak(password: string)
    requires Utf16Length(password) < 8
    ensures !IsStrongPassword(password)
  {
  }

  /** For text without code points above U+FFFF the length rule is `|password| >= 8`. */
  lemma {:induction false} Utf16LengthOfBmp(s: string)
    requires forall i :: 0 <= i < |s| ==> s[i] as int <= 0xFFFF
    ensures Utf16Length(s) == |s|
  {
    if s != [] { Utf16LengthOfBmp(s[1..]); }
  }

  lemma StrongExample()
    ensures IsStrongPassword("Passw0rd!")
  {
    assert IsUpper("Passw0rd!"[0]) && IsLower("Passw0rd!"[1]);
    assert IsDigit("Passw0rd!"[5]) && IsStrongSpecial("Passw0rd!"[8]);
    Utf16LengthOfBmp("Passw0rd!");
  }

  lemma WeakExample()
    ensures !IsStrongPassword("password")
  {
    assert !Contains("password", IsUpper) by {
      forall i | 0 <= i < 8 ensures !IsUpper("password"[i]) { }
    }
  }

  // ---------------------------------------------------------------------------
  // generateRandomToken(length = 32) = randomBytes(length).toString('hex')

  newtype byte = x: int | 0 <= x < 256

  predicate IsLowerHex(c: char) { '0' <= c <= '9' || 'a' <= c <= 'f' }

  function HexDigit(d: int): (c: char)
    requires 0 <= d < 16
    ensures IsLowerHex(c)
  {
    "0123456789abcdef"[d]
  }

  function HexValue(c: char): (d: int)
    requires IsLowerHex(c)
    ensures 0 <= d < 16
  {
    if c <= '9' then c as int - '0' as int else c as int - 'a' as int + 10
  }

  /** `Buffer.toString('hex')`: two lower-case hex digits per byte, high nibble first. */
  function HexEncode(bytes: seq<byte>): (s: string)
    ensures |s| == 2 * |bytes|
    ensures forall i :: 0 <= i < |s| ==> IsLowerHex(s[i])
  {
    if bytes == [] then []
    else [HexDigit(bytes[0] as int / 16), HexDigit(bytes[0] as int % 16)] + HexEncode(bytes[1..])
  }

  /** The inverse of `HexEncode`: reads pairs of hex digits back as bytes. */
  function HexDecode(s: string): (bytes: seq<byte>)
    requires |s| % 2 == 0 && forall i :: 0 <= i < |s| ==> IsLowerHex(s[i])
    ensures |bytes| == |s| / 2
  {
    if s == [] then []
    else [(HexValue(s[0]) * 16 + HexValue(s[1])) as byte] + HexDecode(s[2..])
  }

  lemma {:induction false} HexRoundTrip(bytes: seq<byte>)
    ensures HexDecode(HexEncode(bytes)) == bytes
  {
    if bytes != [] {
      var b := bytes[0] as int;
      assert HexValue(HexDigit(b / 16)) == b / 16;
      assert HexValue(HexDigit(b % 16)) == b % 16;
      assert HexEncode(bytes)[2..] == HexEncode(bytes[1..]);
      HexRoundTrip(bytes[1..]);
    }
  }

  /**
   * The token for `length` random bytes (drawn by the caller): `2 * length`
   * lower-case hex characters that encode exactly those bytes.
   */
  function GenerateRandomToken(randomBytes: seq<byte>): (token: string)
    ensures |token| == 2 * |randomBytes|
    ensures forall i :: 0 <= i < |token| ==> IsLowerHex(token[i])
    ensures HexDecode(token) == randomBytes
  {
    HexRoundTrip(randomBytes);
    HexEncode(randomBytes)
  }
}
