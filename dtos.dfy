/**
 * The class-validator rules of `CreateUserDto` and `UpdatePasswordDto` as
 * predicates over the request body's fields. The e-mail check and the gender and
 * role enumerations are parameters.
 */
module Dtos {
  import opened PasswordUtils

  /** A request body field as the validators see it. */
  datatype Value = Undefined | Null | Str(s: string) | Bool(b: bool) | Other

  /** `@IsString() @IsNotEmpty()` */
  predicate NonEmptyString(v: Value) {
    v.Str? && v.s != ""
  }

  /** `@IsOptional()`: a null or missing field skips the field's other rules. */
  predicate Absent(v: Value) {
    v.Undefined? || v.Null?
  }

  /** The line terminators `.` does not match. */
  predicate IsLineTerminator(c: char) {
    c == '\n' || c == '\r' || c == '\U{2028}' || c == '\U{2029}'
  }

  /** The class `[!@#$%^&*()\-_=+{};:,<.>]` of the DTO password pattern. */
  predicate IsDtoSpecial(c: char) {
    c in "!@#$%^&*()-_=+{};:,<.>"
  }

  /**
   * The pattern `^.*(?=.{8,})((?=.*[special]){1})(?=.*\d)((?=.*[a-z]){1})((?=.*[A-Z]){1}).*$`
   * read literally: the lookaheads hold at some position `p` that `^.*` reaches
   * and from which `.*$` reaches the end, so no character is a line terminator.
   */
  ghost predicate PatternMatchesAt(s: string, p: nat) {
    && p <= |s|
    && (forall k :: 0 <= k < |s| ==> !IsLineTerminator(s[k]))
    && Utf16Length(s[p..]) >= 8
    && (exists k :: p <= k < |s| && IsDtoSpecial(s[k]))
    && (exists k :: p <= k < |s| && IsDigit(s[k]))
    && (exists k :: p <= k < |s| && IsLower(s[k]))
    && (exists k :: p <= k < |s| && IsUpper(s[k]))
  }

  ghost predicate PatternMatches(s: string) {
    exists p: nat :: PatternMatchesAt(s, p)
  }

  lemma {:induction false} Utf16LengthOfSuffix(s: string, p: nat)
    requires p <= |s|
    ensures Utf16Length(s[p..]) <= Utf16Length(s)
  {
    if p > 0 {
      assert s[1..][p - 1..] == s[p..];
      Utf16LengthOfSuffix(s[1..], p - 1);
    }
  }

  /** The password pattern as a test: it matches exactly when it matches at the start. */
  function PasswordPattern(s: string): (r: bool)
    ensures r <==> PatternMatches(s)
    ensures r <==> && !Contains(s, IsLineTerminator) && Utf16Length(s) >= 8
                   && Contains(s, IsDtoSpecial) && Contains(s, IsDigit)
                   && Contains(s, IsLower) && Contains(s, IsUpper)
  {
    var r := !Test(s, IsLineTerminator) && Utf16Length(s) >= 8
             && Test(s, IsDtoSpecial) && Test(s, IsDigit) && Test(s, IsLower) && Test(s, IsUpper);
    assert r ==> PatternMatchesAt(s, 0) by {
      assert s[0..] == s;
    }
    assert PatternMatches(s) ==> r by {
      if PatternMatches(s) {
        var p: nat :| PatternMatchesAt(s, p);
        Utf16LengthOfSuffix(s, p);
      }
    }
    r
  }

  /** The variation selectors validator.js leaves out of a length. */
  predicate IsPresentationSelector(c: char) {
    c == '\U{FE0E}' || c == '\U{FE0F}'
  }

  /** `isLength`'s count: code points, variation selectors not counted. */
  function ValidatorLength(s: string): (n: nat)
    ensures n <= |s|
  {
    if s == [] then 0 else (if IsPresentationSelector(s[0]) then 0 else 1) + ValidatorLength(s[1..])
  }

  /** `@MinLength(8)` is at least as strict as the pattern's `.{8,}`, which counts code units. */
  lemma MinLengthImpliesPatternLength(s: string)
    ensures ValidatorLength(s) <= Utf16Length(s)
  {
  }

  /** `@IsNotEmpty() @MinLength(8) @Matches(pattern)`, the rule of both password fields. */
  predicate PasswordRule(v: Value) {
    NonEmptyString(v) && ValidatorLength(v.s) >= 8 && PasswordPattern(v.s)
  }

  datatype UpdatePasswordDto = UpdatePasswordDto(currentPassword: Value, newPassword: Value, confirmNewPassword: Value)

  /** `UpdatePasswordDto`: all three present, the new password by the rule, the confirmation `===` it. */
  predicate ValidUpdatePassword(dto: UpdatePasswordDto) {
    && NonEmptyString(dto.currentPassword)
    && PasswordRule(dto.newPassword)
    && NonEmptyString(dto.confirmNewPassword) && dto.confirmNewPassword == dto.newPassword
  }

  /** A valid body's confirmation is the new password, which has at least eight characters. */
  lemma ValidUpdatePasswordFields(dto: UpdatePasswordDto)
    requires ValidUpdatePassword(dto)
    ensures dto.confirmNewPassword.s == dto.newPassword.s && |dto.newPassword.s| >= 8
    ensures exists k :: 0 <= k < |dto.newPassword.s| && IsDtoSpecial(dto.newPassword.s[k])
  {
    var p: nat :| PatternMatchesAt(dto.newPassword.s, p);
  }

  datatype CreateUserDto = CreateUserDto(
    firstName: Value, lastName: Value, phoneNumber: Value, gender: Value, email: Value,
    password: Value, role: Value, isEmailVerified: Value, isPhoneVerified: Value, isActive: Value)

  /**
   * `CreateUserDto`: `isEmail` is the e-mail check, `genders` the values of the
   * `Gender` enumeration, `roles` those of `Roles` and `administrator` the value of
   * `Roles.Administrator`, which a new user cannot ask for.
   */
  predicate ValidCreateUser(dto: CreateUserDto, isEmail: string -> bool, genders: seq<string>,
                            roles: seq<string>, administrator: string) {
    && NonEmptyString(dto.firstName)
    && (Absent(dto.lastName) || dto.lastName.Str?)
    && (Absent(dto.phoneNumber) || dto.phoneNumber.Str?)
    && (Absent(dto.gender) || (dto.gender.Str? && dto.gender.s in genders))
    && NonEmptyString(dto.email) && isEmail(dto.email.s)
    && PasswordRule(dto.password)
    && dto.role.Str? && dto.role.s in roles && dto.role.s != administrator
    && (Absent(dto.isEmailVerified) || dto.isEmailVerified.Bool?)
    && (Absent(dto.isPhoneVerified) || dto.isPhoneVerified.Bool?)
    && (Absent(dto.isActive) || dto.isActive.Bool?)
  }

  /** Nobody signs up as an administrator through this body. */
  lemma NoAdministratorSignUp(dto: CreateUserDto, isEmail: string -> bool, genders: seq<string>,
                              roles: seq<string>, administrator: string)
    requires dto.role == Str(administrator)
    ensures !ValidCreateUser(dto, isEmail, genders, roles, administrator)
  {
  }

  /** `Passw0rd-` passes the body's password rule ... */
  lemma DtoRuleExample()
    ensures PasswordRule(Str("Passw0rd-"))
  {
    DtoPatternExample();
    assert ValidatorLength("Passw0rd-") == 9;
  }

  lemma DtoPatternExample()
    ensures PasswordPattern("Passw0rd-")
  {
    var s := "Passw0rd-";
    assert IsUpper(s[0]) && IsLower(s[1]) && IsDigit(s[5]) && IsDtoSpecial(s[8]);
    Utf16LengthOfBmp(s);
    SingleLineExample();
  }

  lemma SingleLineExample()
    ensures !Contains("Passw0rd-", IsLineTerminator)
  {
    forall i | 0 <= i < 9 ensures !IsLineTerminator("Passw0rd-"[i]) { }
  }

  /** ... but is not strong to `isStrongPassword`, for which `-` is not special. */
  lemma DtoRuleExampleIsWeak()
    ensures !IsStrongPassword("Passw0rd-")
  {
    assert !Contains("Passw0rd-", IsStrongSpecial) by {
      forall i | 0 <= i < 9 ensures !IsStrongSpecial("Passw0rd-"[i]) { }
    }
  }

  /** `Passw0rd?` fails the body's rule, for which `?` is not special ... */
  lemma StrongExampleFailsDtoRule()
    ensures !PasswordRule(Str("Passw0rd?"))
  {
    assert !Contains("Passw0rd?", IsDtoSpecial) by {
      forall i | 0 <= i < 9 ensures !IsDtoSpecial("Passw0rd?"[i]) { }
    }
  }

  /** ... while `isStrongPassword` accepts it. */
  lemma StrongDespiteDtoRule()
    ensures IsStrongPassword("Passw0rd?")
  {
    var s := "Passw0rd?";
    assert IsUpper(s[0]) && IsLower(s[1]) && IsDigit(s[5]) && IsStrongSpecial(s[8]);
    Utf16LengthOfBmp(s);
  }
}
