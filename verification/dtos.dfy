/**
  The request payloads and the Bean Validation constraints on their fields.
  Each single-field constraint other than `@NotNull` accepts a null value, as
  Bean Validation prescribes; `@NotNull` is what rules null out. The `@Email`
  check is a parameter (`isEmail`); `@FieldMatch` holds when both fields are
  non-null, non-empty and equal.
*/
module Dtos {
  import opened Wrappers
  import opened Dates
  import AgeOverValidation

  datatype RegistrationRequest = RegistrationRequest(
    email: Text,
    password: Text,
    repeatPassword: Text,
    birthDate: Option<Date>,
    firstName: Text,
    lastName: Text,
    address: Text,
    phone: Text)

  /** The update payload: it has no email, password or role field. */
  datatype UpdateRequest = UpdateRequest(
    birthDate: Option<Date>,
    firstName: Text,
    lastName: Text,
    address: Text,
    phone: Text)

  datatype LoginRequest = LoginRequest(email: Text, password: Text)

  const PasswordMinLength: nat := 7
  const PasswordMaxLength: nat := 60

  /** `@NotNull`. */
  predicate NotNull<T>(v: Option<T>)
  {
    v.Some?
  }

  /** `@Size(min, max)` on a string. */
  predicate SizeBetween(v: Text, min: nat, max: nat)
  {
    v.None? || min <= |v.value| <= max
  }

  /** `@Past` on a date: strictly before the day of validation. */
  predicate InPast(v: Option<Date>, today: Date)
  {
    v.None? || Before(v.value, today)
  }

  /** `@FieldMatch`: both fields non-empty and equal. */
  predicate FieldsMatch(a: Text, b: Text)
  {
    a.Some? && b.Some? && |a.value| > 0 && a == b
  }

  /** `@NotNull @Size(min = 7, max = 60)`, the password rule of both registration and login. */
  predicate PasswordRule(p: Text)
  {
    NotNull(p) && SizeBetween(p, PasswordMinLength, PasswordMaxLength)
  }

  /** `@NotNull @Past @AgeOver`, the birth date rule of both registration and update. */
  predicate AdultBirthDateRule(b: Option<Date>, today: Date)
  {
    NotNull(b) && InPast(b, today) && AgeOverValidation.IsValid(b, today)
  }

  /** A valid registration carries credentials that also pass login, and a matching repeated password. */
  predicate ValidRegistration(r: RegistrationRequest, today: Date, isEmail: Text -> bool)
    ensures ValidRegistration(r, today, isEmail) ==> ValidLogin(LoginRequest(r.email, r.password), isEmail)
    ensures ValidRegistration(r, today, isEmail) ==> r.repeatPassword == r.password
  {
    && FieldsMatch(r.password, r.repeatPassword)
    && isEmail(r.email)
    && PasswordRule(r.password)
    && AdultBirthDateRule(r.birthDate, today)
    && NotNull(r.firstName)
    && NotNull(r.lastName)
  }

  /** A valid update carries a birth date strictly before the day of validation. */
  predicate ValidUpdate(u: UpdateRequest, today: Date)
    ensures ValidUpdate(u, today) ==> u.birthDate.Some? && Before(u.birthDate.value, today)
  {
    && AdultBirthDateRule(u.birthDate, today)
    && NotNull(u.firstName)
    && NotNull(u.lastName)
  }

  /** A valid login carries a password of `PasswordMinLength` to `PasswordMaxLength` characters. */
  predicate ValidLogin(l: LoginRequest, isEmail: Text -> bool)
    ensures ValidLogin(l, isEmail) ==> l.password.Some? && PasswordMinLength <= |l.password.value| <= PasswordMaxLength
  {
    isEmail(l.email) && PasswordRule(l.password)
  }

  /** The birth date rule in calendar terms: present, strictly past and at least eighteen whole years back. */
  lemma AdultBirthDateRuleIff(b: Option<Date>, today: Date)
    ensures AdultBirthDateRule(b, today)
            <==> b.Some? && Before(b.value, today) && ElapsedYears(b.value, today) >= AgeOverValidation.MinAge
  {
    if b.Some? {
      AgeOverValidation.IsValidIffEighteenWholeYears(b.value, today);
    }
  }

  /**
    What a valid registration payload is, field by field. The non-empty half
    of `@FieldMatch` is implied by the password length rule.
  */
  lemma ValidRegistrationIff(r: RegistrationRequest, today: Date, isEmail: Text -> bool)
    ensures ValidRegistration(r, today, isEmail) <==>
      && isEmail(r.email)
      && r.password.Some? && PasswordMinLength <= |r.password.value| <= PasswordMaxLength
      && r.repeatPassword == r.password
      && r.birthDate.Some? && Before(r.birthDate.value, today)
      && ElapsedYears(r.birthDate.value, today) >= AgeOverValidation.MinAge
      && r.firstName.Some? && r.lastName.Some?
  {
    AdultBirthDateRuleIff(r.birthDate, today);
  }

  /** What a valid update payload is, field by field. */
  lemma ValidUpdateIff(u: UpdateRequest, today: Date)
    ensures ValidUpdate(u, today) <==>
      && u.birthDate.Some? && Before(u.birthDate.value, today)
      && ElapsedYears(u.birthDate.value, today) >= AgeOverValidation.MinAge
      && u.firstName.Some? && u.lastName.Some?
  {
    AdultBirthDateRuleIff(u.birthDate, today);
  }

  /** A null, too short or too long password makes a registration payload invalid. */
  lemma RegistrationRejectsBadPassword(r: RegistrationRequest, today: Date, isEmail: Text -> bool)
    requires r.password.None? || |r.password.value| < PasswordMinLength || |r.password.value| > PasswordMaxLength
    ensures !ValidRegistration(r, today, isEmail)
  {
  }

  /** Empty or unequal password and repeated password make a registration payload invalid. */
  lemma RegistrationRejectsPasswordMismatch(r: RegistrationRequest, today: Date, isEmail: Text -> bool)
    requires r.password != r.repeatPassword || r.password == Some("") || r.password.None?
    ensures !ValidRegistration(r, today, isEmail)
  {
  }

  /** Address and phone are unconstrained in both payloads. */
  lemma AddressAndPhoneUnconstrained(r: RegistrationRequest, u: UpdateRequest, today: Date, isEmail: Text -> bool,
                                     address: Text, phone: Text)
    ensures ValidRegistration(r, today, isEmail) == ValidRegistration(r.(address := address, phone := phone), today, isEmail)
    ensures ValidUpdate(u, today) == ValidUpdate(u.(address := address, phone := phone), today)
  {
  }

  /** A valid update payload always carries a birth date, so a null one fails validation through `@NotNull`, whatever `@AgeOver` answers. */
  lemma ValidUpdateHasAdultBirthDate(u: UpdateRequest, today: Date)
    requires ValidUpdate(u, today)
    ensures u.birthDate.Some?
    ensures Before(u.birthDate.value, today)
    ensures ElapsedYears(u.birthDate.value, today) >= AgeOverValidation.MinAge
  {
    ValidUpdateIff(u, today);
  }

  /** What a valid login payload is, field by field. */
  lemma ValidLoginIff(l: LoginRequest, isEmail: Text -> bool)
    ensures ValidLogin(l, isEmail) <==>
      isEmail(l.email) && l.password.Some? && PasswordMinLength <= |l.password.value| <= PasswordMaxLength
  {
  }

  /** A null, too short or too long password makes a login payload invalid. */
  lemma LoginRejectsBadPassword(l: LoginRequest, isEmail: Text -> bool)
    requires l.password.None? || |l.password.value| < PasswordMinLength || |l.password.value| > PasswordMaxLength
    ensures !ValidLogin(l, isEmail)
  {
  }

  /**
    Login and registration judge a password the same way: against an
    otherwise valid registration, a password (entered twice) is accepted
    exactly when login accepts it with the same email.
  */
  lemma LoginAndRegistrationShareThePasswordRule(r: RegistrationRequest, today: Date, isEmail: Text -> bool, p: Text)
    requires ValidRegistration(r, today, isEmail)
    ensures ValidRegistration(r.(password := p, repeatPassword := p), today, isEmail)
            <==> ValidLogin(LoginRequest(r.email, p), isEmail)
  {
  }
}
