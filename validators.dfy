/** The user serializers' validation rules: registration (email, username,
    phone, password policy, maximum lengths, then the object-level password
    confirmation and minimum age), the change-password confirmation and the
    password-reset email lookup. Each rule is a function returning either the
    cleaned value or the error, keyed by the field it concerns. */
module Validators {
  import opened Wrappers
  import opened Strings
  import opened Models

  /** The keys of the error dictionary a serializer reports. */
  datatype Field =
    | Username | Email | Password | PasswordConfirm | Phone | Bio | PreferredLanguage | Birthdate
    | OldPassword | NewPassword | NewPasswordConfirm

  datatype FieldError = FieldError(field: Field, message: string)

  const MinimumAge: int := 13
  const MinPhoneDigits: nat := 10
  const BioMaxLength: nat := 500
  const LanguageMaxLength: nat := 10

  /** The registration request; after field validation, the serializer's
      validated attributes have the same shape. */
  datatype Registration = Registration(
    username: string,
    email: string,
    password: string,
    passwordConfirm: string,
    firstName: string,
    lastName: string,
    phone: Option<string>,
    birthDate: Option<Date>,
    acceptsMarketing: Option<bool>,
    bio: Option<string>,
    preferredLanguage: Option<string>)

  /** The field names an error list reports. */
  function Fields(errors: seq<FieldError>): set<Field> {
    set e | e in errors :: e.field
  }

  lemma FieldsAppend(a: seq<FieldError>, b: seq<FieldError>)
    ensures Fields(a + b) == Fields(a) + Fields(b)
  {
    forall f | f in Fields(a + b) ensures f in Fields(a) + Fields(b) {
      var e :| e in a + b && e.field == f;
      if e in a { assert f in Fields(a); } else { assert f in Fields(b); }
    }
    forall f | f in Fields(a) + Fields(b) ensures f in Fields(a + b) {
      if f in Fields(a) {
        var e :| e in a && e.field == f;
        assert e in a + b;
      } else {
        var e :| e in b && e.field == f;
        assert e in a + b;
      }
    }
  }

  function ErrorsOf<T>(r: Result<T, FieldError>): seq<FieldError> {
    if r.Err? then [r.error] else []
  }

  // ---------------------------------------------------------------- email

  /** `UserRegistrationSerializer.validate_email`: the email is stored
      lower-cased, and refused when a user already has that lower-cased email. */
  function ValidateEmail(value: string, emails: set<string>): (r: Result<string, FieldError>)
    ensures r.Ok? <==> Lower(value) !in emails
    ensures r.Ok? ==> HasNoUpper(r.value) && EqualIgnoringCase(r.value, value)
    ensures r.Err? ==> r.error.field == Email
  {
    LowerIsCaselessForm(value);
    if Lower(value) in emails then Err(FieldError(Email, "The email is already registered."))
    else Ok(Lower(value))
  }

  /** Once an email is registered, every spelling of it that differs only
      in case is refused. */
  lemma EmailTakenInAnyCase(first: string, second: string, emails: set<string>)
    requires EqualIgnoringCase(first, second)
    requires ValidateEmail(first, emails).Ok?
    ensures ValidateEmail(second, emails + {ValidateEmail(first, emails).value}).Err?
  {
    SameLowerIffEqualIgnoringCase(first, second);
  }

  /** `PasswordResetSerializer.validate_email`: accepted, lower-cased, exactly
      when some user has the lower-cased email. */
  function ValidateResetEmail(value: string, emails: set<string>): (r: Result<string, FieldError>)
    ensures r.Ok? <==> Lower(value) in emails
    ensures r.Ok? ==> r.value == Lower(value) && r.value in emails
    ensures r.Err? ==> r.error.field == Email
  {
    if Lower(value) in emails then Ok(Lower(value))
    else Err(FieldError(Email, "The email isn't registered in our database"))
  }

  /** A password reset is accepted for exactly the emails registration refuses. */
  lemma ResetAcceptsExactlyTakenEmails(value: string, emails: set<string>)
    ensures ValidateResetEmail(value, emails).Ok? <==> ValidateEmail(value, emails).Err?
    ensures ValidateResetEmail(value, emails).Ok? ==>
      ValidateResetEmail(value, emails).value == Lower(value)
  {
  }

  // ---------------------------------------------------------------- username

  /** Letters, digits and underscores, and not only underscores. */
  predicate UsernameCharsOk(s: string) {
    && (exists i :: 0 <= i < |s| && s[i] != '_')
    && (forall i :: 0 <= i < |s| ==> IsAlnum(s[i]) || s[i] == '_')
  }

  /** `value.replace('_', '').isalnum()` is the username character rule. */
  lemma UsernameRule(s: string)
    ensures IsAlnumString(Filter(NotUnderscore, s)) <==> UsernameCharsOk(s)
  {
    var f := Filter(NotUnderscore, s);
    FilterMembership(NotUnderscore, s);
    if IsAlnumString(f) {
      assert f[0] in f;
      var i :| 0 <= i < |s| && s[i] == f[0];
      assert s[i] != '_';
      forall i | 0 <= i < |s| ensures IsAlnum(s[i]) || s[i] == '_' {
        if s[i] != '_' {
          assert s[i] in f;
          var j :| 0 <= j < |f| && f[j] == s[i];
        }
      }
    }
    if UsernameCharsOk(s) {
      var i :| 0 <= i < |s| && s[i] != '_';
      assert s[i] in f;
      forall j | 0 <= j < |f| ensures IsAlnum(f[j]) {
        assert f[j] in f;
        var k :| 0 <= k < |s| && s[k] == f[j];
      }
    }
  }

  /** `UserRegistrationSerializer.validate_username` */
  function ValidateUsername(value: string, usernames: set<string>): (r: Result<string, FieldError>)
    ensures r.Ok? <==> value !in usernames && UsernameCharsOk(value)
    ensures r.Ok? ==> r.value == value
    ensures r.Err? ==> r.error.field == Username
  {
    UsernameRule(value);
    if value in usernames then
      Err(FieldError(Username, "The username is already taken"))
    else if !IsAlnumString(Filter(NotUnderscore, value)) then
      Err(FieldError(Username, "The username can contain only letters, numbers and underscores"))
    else
      Ok(value)
  }

  // ---------------------------------------------------------------- phone

  /** A phone was given and has fewer than ten digits among its characters. */
  predicate PhoneTooShort(phone: Option<string>) {
    phone.Some? && phone.value != "" && |Filter(IsDigit, phone.value)| < MinPhoneDigits
  }

  /** `UserRegistrationSerializer.validate_phone`: an absent or empty phone
      validates to nothing; a given phone is kept as written (not
      normalised) when it has at least ten digits. */
  function ValidatePhone(phone: Option<string>): (r: Result<Option<string>, FieldError>)
    ensures r.Err? <==> PhoneTooShort(phone)
    ensures r.Err? ==> r.error.field == Phone
    ensures r.Ok? ==> r.value == if phone == Some("") then None else phone
  {
    if phone.None? || phone.value == "" then Ok(None)
    else if |Filter(IsDigit, phone.value)| < MinPhoneDigits then
      Err(FieldError(Phone, "The phone number has to have at least 10 digits"))
    else Ok(phone)
  }

  /** Separators do not count: putting non-digit characters between the
      parts of a phone never changes whether it is accepted. */
  lemma PhoneSeparatorsIgnored(a: string, sep: string, b: string)
    requires forall i :: 0 <= i < |sep| ==> !IsDigit(sep[i])
    requires a + b != ""
    ensures ValidatePhone(Some(a + sep + b)).Ok? <==> ValidatePhone(Some(a + b)).Ok?
  {
    FilterAppend(IsDigit, a + sep, b);
    FilterAppend(IsDigit, a, sep);
    FilterAppend(IsDigit, a, b);
    FilterDropsNonConforming(IsDigit, sep);
  }

  lemma ShortPhoneRejected()
    ensures ValidatePhone(Some("123-456")).Err?
  {
    assert "123-456" == "123" + "-" + "456";
    FilterAppend(IsDigit, "123" + "-", "456");
    FilterAppend(IsDigit, "123", "-");
  }

  /** The digits of a formatted phone are its digit groups, in order. */
  lemma DigitsOfFormattedPhone(a: string, b: string, c: string, d: string, e: string, f: string)
    requires forall i :: 0 <= i < |a| ==> !IsDigit(a[i])
    requires forall i :: 0 <= i < |c| ==> !IsDigit(c[i])
    requires forall i :: 0 <= i < |e| ==> !IsDigit(e[i])
    requires forall i :: 0 <= i < |b| ==> IsDigit(b[i])
    requires forall i :: 0 <= i < |d| ==> IsDigit(d[i])
    requires forall i :: 0 <= i < |f| ==> IsDigit(f[i])
    ensures Filter(IsDigit, a + b + c + d + e + f) == b + d + f
  {
    FilterDropsNonConforming(IsDigit, a);
    FilterKeepsConforming(IsDigit, b);
    FilterDropsNonConforming(IsDigit, c);
    FilterKeepsConforming(IsDigit, d);
    FilterDropsNonConforming(IsDigit, e);
    FilterKeepsConforming(IsDigit, f);
    var ab, abc, abcd, abcde := a + b, a + b + c, a + b + c + d, a + b + c + d + e;
    assert Filter(IsDigit, ab) == b by {
      FilterAppend(IsDigit, a, b);
    }
    assert Filter(IsDigit, abc) == b by {
      assert abc == ab + c;
      FilterAppend(IsDigit, ab, c);
    }
    assert Filter(IsDigit, abcd) == b + d by {
      assert abcd == abc + d;
      FilterAppend(IsDigit, abc, d);
    }
    assert Filter(IsDigit, abcde) == b + d by {
      assert abcde == abcd + e;
      FilterAppend(IsDigit, abcd, e);
    }
    assert a + b + c + d + e + f == abcde + f;
    FilterAppend(IsDigit, abcde, f);
  }

  /** A phone written with brackets, a space and a dash is kept as written. */
  lemma FormattedPhoneAccepted()
    ensures ValidatePhone(Some("(123) 456-7890")) == Ok(Some("(123) 456-7890"))
  {
    var phone := "(123) 456-7890";
    assert |Filter(IsDigit, phone)| == 10 by {
      assert phone == "(" + "123" + ") " + "456" + "-" + "7890";
      DigitsOfFormattedPhone("(", "123", ") ", "456", "-", "7890");
    }
  }

  // ---------------------------------------------------------------- age

  /** `(a.month, a.day) < (b.month, b.day)` as Python compares tuples. */
  predicate MonthDayBefore(a: Date, b: Date) {
    a.month < b.month || (a.month == b.month && a.day < b.day)
  }

  /** Whole years from `birth` to `today`. */
  function Age(today: Date, birth: Date): int {
    today.year - birth.year - (if MonthDayBefore(today, birth) then 1 else 0)
  }

  /** `a` is not later than `b` in the calendar. */
  predicate OnOrBefore(a: Date, b: Date) {
    a.year < b.year || (a.year == b.year && !MonthDayBefore(b, a))
  }

  /** The age reaches `n` exactly when the `n`-th birthday is today or past. */
  lemma AgeReachedOnBirthday(today: Date, birth: Date, n: int)
    ensures Age(today, birth) >= n <==> OnOrBefore(birth.(year := birth.year + n), today)
  {
  }

  predicate OldEnough(birthDate: Option<Date>, today: Date) {
    birthDate.None? || Age(today, birthDate.value) >= MinimumAge
  }

  // ---------------------------------------------------------------- object level

  /** `UserRegistrationSerializer.validate` as evidently intended: the
      confirmation must equal the password (error under `password_confirm`),
      then a given birth date must make the user at least 13 (error under
      `birthdate`); the attributes are returned unchanged. */
  function Validate(attrs: Registration, today: Date): (r: Result<Registration, FieldError>)
    ensures r.Ok? <==> attrs.password == attrs.passwordConfirm && OldEnough(attrs.birthDate, today)
    ensures r.Ok? ==> r.value == attrs
    ensures attrs.password != attrs.passwordConfirm ==> r.Err? && r.error.field == PasswordConfirm
    ensures attrs.password == attrs.passwordConfirm && r.Err? ==> r.error.field == Birthdate
  {
    if attrs.password != attrs.passwordConfirm then
      Err(FieldError(PasswordConfirm, "The passwords doesn't match"))
    else if attrs.birthDate.Some? && Age(today, attrs.birthDate.value) < MinimumAge then
      Err(FieldError(Birthdate, "You need to be at least 13 years old to sign up."))
    else
      Ok(attrs)
  }

  /** The exact 13th birthday is accepted; ten years of age is refused. */
  lemma ThirteenthBirthdayAccepted(attrs: Registration, today: Date)
    requires attrs.password == attrs.passwordConfirm
    ensures Validate(attrs.(birthDate := Some(today.(year := today.year - 13))), today).Ok?
    ensures Validate(attrs.(birthDate := Some(today.(year := today.year - 10))), today) ==
      Err(FieldError(Birthdate, "You need to be at least 13 years old to sign up."))
  {
  }

  /** `UserRegistrationSerializer.validate` as written: the confirmation
      check compares the password with itself, and `return attrs` sits
      inside the birth-date branch, so without a birth date the method
      returns Python's `None` (here `Ok(None)`). */
  function ValidateAsWritten(attrs: Registration, today: Date): (r: Result<Option<Registration>, FieldError>)
    ensures r.Err? <==> attrs.birthDate.Some? && Age(today, attrs.birthDate.value) < MinimumAge
    ensures attrs.birthDate.None? ==> r == Ok(None)
  {
    if attrs.password != attrs.password then
      Err(FieldError(PasswordConfirm, "The passwords doesn't match"))
    else if attrs.birthDate.Some? then
      if Age(today, attrs.birthDate.value) < MinimumAge then
        Err(FieldError(Birthdate, "You need to be at least 13 years old to sign up."))
      else Ok(Some(attrs))
    else
      Ok(None)
  }

  /** As written, a confirmation that differs from the password passes,
      where the intended check refuses it. */
  lemma AsWrittenAcceptsMismatchedConfirmation()
    ensures var attrs := Registration("newuser", "new@example.com", "strongpass123", "differentpass123",
                                      "New", "User", None, Some(Date(1990, 1, 1)), None, None, None);
            var today := Date(2024, 6, 1);
            && ValidateAsWritten(attrs, today) == Ok(Some(attrs))
            && Validate(attrs, today).Err? && Validate(attrs, today).error.field == PasswordConfirm
  {
  }

  /** As written, valid attributes without a birth date come back as
      `None` instead of the attributes. */
  lemma AsWrittenLosesAttrsWithoutBirthDate(attrs: Registration, today: Date)
    requires attrs.birthDate.None? && attrs.password == attrs.passwordConfirm
    ensures ValidateAsWritten(attrs, today) == Ok(None)
    ensures Validate(attrs, today) == Ok(attrs)
  {
  }

  // ---------------------------------------------------------------- the chain

  /** A declared `validate_password` or length validator on one field. */
  function ValidateStrength(field: Field, value: string, policy: string -> bool): (r: Result<string, FieldError>)
    ensures r.Ok? <==> policy(value)
    ensures r.Err? ==> r.error.field == field
  {
    if policy(value) then Ok(value) else Err(FieldError(field, "The password is too weak."))
  }


  predicate FitsIn(value: Option<string>, max: nat) {
    value.None? || |value.value| <= max
  }

  function ValidateMaxLength(field: Field, value: Option<string>, max: nat): (r: Result<Option<string>, FieldError>)
    ensures r.Ok? <==> FitsIn(value, max)
    ensures r.Err? ==> r.error.field == field
  {
    if FitsIn(value, max) then Ok(value)
    else Err(FieldError(field, "Ensure this field has no more than the allowed number of characters."))
  }

  /** The field-level errors of a registration, all reported together. */
  function FieldErrors(input: Registration, emails: set<string>, usernames: set<string>, policy: string -> bool): seq<FieldError> {
    ErrorsOf(ValidateUsername(input.username, usernames))
    + ErrorsOf(ValidateEmail(input.email, emails))
    + ErrorsOf(ValidateStrength(Password, input.password, policy))
    + ErrorsOf(ValidatePhone(input.phone))
    + ErrorsOf(ValidateMaxLength(Bio, input.bio, BioMaxLength))
    + ErrorsOf(ValidateMaxLength(PreferredLanguage, input.preferredLanguage, LanguageMaxLength))
  }

  /** The field checks pass. */
  predicate FieldsValid(input: Registration, emails: set<string>, usernames: set<string>, policy: string -> bool) {
    && Lower(input.email) !in emails
    && input.username !in usernames && UsernameCharsOk(input.username)
    && policy(input.password)
    && !PhoneTooShort(input.phone)
    && FitsIn(input.bio, BioMaxLength)
    && FitsIn(input.preferredLanguage, LanguageMaxLength)
  }

  /** Every registration rule holds. */
  predicate RegistrationAccepted(input: Registration, emails: set<string>, usernames: set<string>,
                                 policy: string -> bool, today: Date) {
    && FieldsValid(input, emails, usernames, policy)
    && input.password == input.passwordConfirm
    && OldEnough(input.birthDate, today)
  }

  /** The attributes after field validation: the email lower-cased, an empty
      phone dropped. */
  function Cleaned(input: Registration): Registration {
    input.(email := Lower(input.email), phone := if input.phone == Some("") then None else input.phone)
  }

  /** Which fields the field-level errors name. */
  lemma FieldErrorsReport(input: Registration, emails: set<string>, usernames: set<string>, policy: string -> bool)
    ensures var f := Fields(FieldErrors(input, emails, usernames, policy));
      && (Email in f <==> Lower(input.email) in emails)
      && (Username in f <==> input.username in usernames || !UsernameCharsOk(input.username))
      && (Password in f <==> !policy(input.password))
      && (Phone in f <==> PhoneTooShort(input.phone))
      && (Bio in f <==> !FitsIn(input.bio, BioMaxLength))
      && (PreferredLanguage in f <==> !FitsIn(input.preferredLanguage, LanguageMaxLength))
      && f <= {Username, Email, Password, Phone, Bio, PreferredLanguage}
      && PasswordConfirm !in f
  {
    FieldErrorsUnion(input, emails, usernames, policy);
    IdentityFieldsNamed(input, emails, usernames);
    ValueFieldsNamed(input, policy);
    OneFieldEach(FieldOf(ValidateUsername(input.username, usernames)),
                 FieldOf(ValidateEmail(input.email, emails)),
                 FieldOf(ValidateStrength(Password, input.password, policy)),
                 FieldOf(ValidatePhone(input.phone)),
                 FieldOf(ValidateMaxLength(Bio, input.bio, BioMaxLength)),
                 FieldOf(ValidateMaxLength(PreferredLanguage, input.preferredLanguage, LanguageMaxLength)),
                 input.username in usernames || !UsernameCharsOk(input.username),
                 Lower(input.email) in emails,
                 !policy(input.password),
                 PhoneTooShort(input.phone),
                 !FitsIn(input.bio, BioMaxLength),
                 !FitsIn(input.preferredLanguage, LanguageMaxLength));
  }

  /** No field-level error is reported exactly when the field checks pass. */
  lemma FieldErrorsEmpty(input: Registration, emails: set<string>, usernames: set<string>, policy: string -> bool)
    ensures FieldErrors(input, emails, usernames, policy) == [] <==> FieldsValid(input, emails, usernames, policy)
  {
  }

  lemma FieldErrorsUnion(input: Registration, emails: set<string>, usernames: set<string>, policy: string -> bool)
    ensures Fields(FieldErrors(input, emails, usernames, policy)) ==
      FieldOf(ValidateUsername(input.username, usernames)) + FieldOf(ValidateEmail(input.email, emails))
      + FieldOf(ValidateStrength(Password, input.password, policy)) + FieldOf(ValidatePhone(input.phone))
      + FieldOf(ValidateMaxLength(Bio, input.bio, BioMaxLength))
      + FieldOf(ValidateMaxLength(PreferredLanguage, input.preferredLanguage, LanguageMaxLength))
  {
    FieldsOfSix(ValidateUsername(input.username, usernames),
                ValidateEmail(input.email, emails),
                ValidateStrength(Password, input.password, policy),
                ValidatePhone(input.phone),
                ValidateMaxLength(Bio, input.bio, BioMaxLength),
                ValidateMaxLength(PreferredLanguage, input.preferredLanguage, LanguageMaxLength));
  }

  /** The username and email validators each name their own field, exactly
      when they refuse. */
  lemma IdentityFieldsNamed(input: Registration, emails: set<string>, usernames: set<string>)
    ensures FieldOf(ValidateUsername(input.username, usernames)) ==
      if input.username in usernames || !UsernameCharsOk(input.username) then {Username} else {}
    ensures FieldOf(ValidateEmail(input.email, emails)) == if Lower(input.email) in emails then {Email} else {}
  {
  }

  /** The password, phone and length validators each name their own field,
      exactly when they refuse. */
  lemma ValueFieldsNamed(input: Registration, policy: string -> bool)
    ensures FieldOf(ValidateStrength(Password, input.password, policy)) ==
      if !policy(input.password) then {Password} else {}
    ensures FieldOf(ValidatePhone(input.phone)) == if PhoneTooShort(input.phone) then {Phone} else {}
    ensures FieldOf(ValidateMaxLength(Bio, input.bio, BioMaxLength)) ==
      if !FitsIn(input.bio, BioMaxLength) then {Bio} else {}
    ensures FieldOf(ValidateMaxLength(PreferredLanguage, input.preferredLanguage, LanguageMaxLength)) ==
      if !FitsIn(input.preferredLanguage, LanguageMaxLength) then {PreferredLanguage} else {}
  {
  }

  /** Set reasoning behind the report: each validator names its own field
      exactly when it fails. */
  lemma OneFieldEach(f1: set<Field>, f2: set<Field>, f3: set<Field>, f4: set<Field>, f5: set<Field>, f6: set<Field>,
                     b1: bool, b2: bool, b3: bool, b4: bool, b5: bool, b6: bool)
    requires f1 == (if b1 then {Username} else {})
    requires f2 == (if b2 then {Email} else {})
    requires f3 == (if b3 then {Password} else {})
    requires f4 == (if b4 then {Phone} else {})
    requires f5 == (if b5 then {Bio} else {})
    requires f6 == (if b6 then {PreferredLanguage} else {})
    ensures var f := f1 + f2 + f3 + f4 + f5 + f6;
      && (Username in f <==> b1) && (Email in f <==> b2) && (Password in f <==> b3)
      && (Phone in f <==> b4) && (Bio in f <==> b5) && (PreferredLanguage in f <==> b6)
      && (f == {} <==> !b1 && !b2 && !b3 && !b4 && !b5 && !b6)
      && f <= {Username, Email, Password, Phone, Bio, PreferredLanguage}
      && PasswordConfirm !in f
  {
    var f := f1 + f2 + f3 + f4 + f5 + f6;
    if b1 { assert Username in f; }
    if b2 { assert Email in f; }
    if b3 { assert Password in f; }
    if b4 { assert Phone in f; }
    if b5 { assert Bio in f; }
    if b6 { assert PreferredLanguage in f; }
  }

  /** The field an error result names, if any. */
  function FieldOf<T>(r: Result<T, FieldError>): (f: set<Field>)
    ensures f == {} <==> r.Ok?
  {
    if r.Err? then {r.error.field} else {}
  }

  lemma FieldsOfErrors<T>(r: Result<T, FieldError>)
    ensures Fields(ErrorsOf(r)) == FieldOf(r)
  {
    if r.Err? {
      assert ErrorsOf(r)[1..] == [];
    }
  }

  /** The fields of six concatenated error lists are the union of theirs. */
  lemma FieldsOfSix<A, B, C, D, E, F>(r1: Result<A, FieldError>, r2: Result<B, FieldError>, r3: Result<C, FieldError>,
                                      r4: Result<D, FieldError>, r5: Result<E, FieldError>, r6: Result<F, FieldError>)
    ensures Fields(ErrorsOf(r1) + ErrorsOf(r2) + ErrorsOf(r3) + ErrorsOf(r4) + ErrorsOf(r5) + ErrorsOf(r6))
         == FieldOf(r1) + FieldOf(r2) + FieldOf(r3) + FieldOf(r4) + FieldOf(r5) + FieldOf(r6)
  {
    var e1, e2, e3, e4, e5, e6 := ErrorsOf(r1), ErrorsOf(r2), ErrorsOf(r3), ErrorsOf(r4), ErrorsOf(r5), ErrorsOf(r6);
    FieldsOfErrors(r1);
    FieldsOfErrors(r2);
    FieldsOfErrors(r3);
    FieldsOfErrors(r4);
    FieldsOfErrors(r5);
    FieldsOfErrors(r6);
    FieldsAppend(e1, e2);
    FieldsAppend(e1 + e2, e3);
    FieldsAppend(e1 + e2 + e3, e4);
    FieldsAppend(e1 + e2 + e3 + e4, e5);
    FieldsAppend(e1 + e2 + e3 + e4 + e5, e6);
  }

  /** Registration validation: the field validators all run and their errors
      are reported together; only when there are none does the object-level
      `validate` run, on the cleaned attributes. */
  function ValidateRegistration(input: Registration, emails: set<string>, usernames: set<string>,
                                policy: string -> bool, today: Date): (r: Result<Registration, seq<FieldError>>)
    ensures r.Ok? <==> RegistrationAccepted(input, emails, usernames, policy, today)
    ensures r.Ok? ==> r.value == Cleaned(input)
    ensures r.Err? ==> r.error != []
  {
    FieldErrorsEmpty(input, emails, usernames, policy);
    CleanedValidation(input, today);
    var errors := FieldErrors(input, emails, usernames, policy);
    if errors != [] then Err(errors)
    else match Validate(Cleaned(input), today)
      case Err(e) => Err([e])
      case Ok(attrs) => Ok(attrs)
  }

  /** The four fields a refused registration names, as a predicate on its
      error list. */
  predicate ReportsRegistration(f: set<Field>, input: Registration, emails: set<string>, usernames: set<string>,
                                policy: string -> bool) {
    && (Email in f <==> Lower(input.email) in emails)
    && (Username in f <==> input.username in usernames || !UsernameCharsOk(input.username))
    && (Phone in f <==> PhoneTooShort(input.phone))
    && (PasswordConfirm in f <==> FieldsValid(input, emails, usernames, policy) && input.password != input.passwordConfirm)
  }

  /** A refused registration names the email field exactly when the email is
      taken, the username field exactly when the username is taken or
      malformed, the phone field exactly when the phone is too short, and
      the confirmation field exactly when every field passed but the two
      passwords differ. */
  lemma RegistrationErrorsReport(input: Registration, emails: set<string>, usernames: set<string>,
                                 policy: string -> bool, today: Date)
    requires ValidateRegistration(input, emails, usernames, policy, today).Err?
    ensures ReportsRegistration(Fields(ValidateRegistration(input, emails, usernames, policy, today).error),
                                input, emails, usernames, policy)
  {
    if FieldErrors(input, emails, usernames, policy) != [] {
      FieldStageReport(input, emails, usernames, policy, today);
    } else {
      ObjectStageReport(input, emails, usernames, policy, today);
    }
  }

  lemma FieldStageReport(input: Registration, emails: set<string>, usernames: set<string>,
                         policy: string -> bool, today: Date)
    requires FieldErrors(input, emails, usernames, policy) != []
    ensures ValidateRegistration(input, emails, usernames, policy, today).Err?
    ensures ReportsRegistration(Fields(ValidateRegistration(input, emails, usernames, policy, today).error),
                                input, emails, usernames, policy)
  {
    assert ValidateRegistration(input, emails, usernames, policy, today) ==
      Err(FieldErrors(input, emails, usernames, policy));
    FieldStageFacts(input, emails, usernames, policy);
  }

  /** Failing field checks are reported under their own fields, never under
      the confirmation. */
  lemma FieldStageFacts(input: Registration, emails: set<string>, usernames: set<string>, policy: string -> bool)
    requires FieldErrors(input, emails, usernames, policy) != []
    ensures ReportsRegistration(Fields(FieldErrors(input, emails, usernames, policy)), input, emails, usernames, policy)
  {
    FieldErrorsReport(input, emails, usernames, policy);
    assert !FieldsValid(input, emails, usernames, policy) by {
      FieldErrorsEmpty(input, emails, usernames, policy);
    }
  }

  lemma ObjectStageReport(input: Registration, emails: set<string>, usernames: set<string>,
                          policy: string -> bool, today: Date)
    requires FieldErrors(input, emails, usernames, policy) == []
    requires ValidateRegistration(input, emails, usernames, policy, today).Err?
    ensures ReportsRegistration(Fields(ValidateRegistration(input, emails, usernames, policy, today).error),
                                input, emails, usernames, policy)
  {
    FieldErrorsEmpty(input, emails, usernames, policy);
    CleanedValidation(input, today);
    FieldsOfOne(Validate(Cleaned(input), today).error);
  }

  /** Cleaning touches neither the passwords nor the birth date, so the
      object-level checks see what the client sent. */
  lemma CleanedValidation(input: Registration, today: Date)
    ensures Validate(Cleaned(input), today).Ok? <==>
      input.password == input.passwordConfirm && OldEnough(input.birthDate, today)
    ensures Validate(Cleaned(input), today).Ok? ==> Validate(Cleaned(input), today).value == Cleaned(input)
    ensures Validate(Cleaned(input), today).Err? ==>
      (Validate(Cleaned(input), today).error.field == PasswordConfirm <==> input.password != input.passwordConfirm)
  {
  }

  lemma FieldsOfOne(e: FieldError)
    ensures Fields([e]) == {e.field}
  {
    assert e in [e];
  }

  // ---------------------------------------------------------------- change password

  datatype PasswordChange = PasswordChange(oldPassword: string, newPassword: string, newPasswordConfirm: string)

  /** `ChangePasswordSerializer.validate` */
  function ValidatePasswordChange(attrs: PasswordChange): (r: Result<PasswordChange, FieldError>)
    ensures r.Err? <==> attrs.newPassword != attrs.newPasswordConfirm
    ensures r.Err? ==> r.error.field == NewPasswordConfirm
    ensures r.Ok? ==> r.value == attrs
  {
    if attrs.newPassword != attrs.newPasswordConfirm then
      Err(FieldError(NewPasswordConfirm, "The new password does'nt match"))
    else Ok(attrs)
  }

  /** `is_valid()` of the change-password serializer: the password policy on
      `new_password`, then `validate`. */
  function PasswordChangeIsValid(attrs: PasswordChange, policy: string -> bool): (r: Result<PasswordChange, FieldError>)
    ensures r.Ok? <==> policy(attrs.newPassword) && attrs.newPassword == attrs.newPasswordConfirm
    ensures r.Ok? ==> r.value == attrs
    ensures !policy(attrs.newPassword) ==> r.Err? && r.error.field == NewPassword
    ensures policy(attrs.newPassword) && attrs.newPassword != attrs.newPasswordConfirm ==>
      r.Err? && r.error.field == NewPasswordConfirm
  {
    if !policy(attrs.newPassword) then Err(FieldError(NewPassword, "The password is too weak."))
    else ValidatePasswordChange(attrs)
  }

  // ---------------------------------------------------------------- profile update phone

  /** What `UserUpdateSerializer.validate_phone` hands back: the phone text,
      or an error object used as if it were the value. */
  datatype PhoneValue = PhoneText(text: Option<string>) | ErrorObject(message: string)

  /** `UserUpdateSerializer.validate_phone` as written: the error is
      returned rather than raised, so validation never fails. */
  function UpdateValidatePhoneAsWritten(phone: Option<string>): (r: Result<PhoneValue, FieldError>)
    ensures r.Ok?
    ensures r.value.ErrorObject? <==> PhoneTooShort(phone)
  {
    if phone.None? || phone.value == "" then Ok(PhoneText(None))
    else if |Filter(IsDigit, phone.value)| < MinPhoneDigits then
      Ok(ErrorObject("The phone has to have at least 10 digits"))
    else Ok(PhoneText(phone))
  }

  /** A six-digit phone passes the profile update as written; the
      registration rule, which the update evidently means, refuses it. */
  lemma UpdatePhoneAsWrittenAcceptsShortPhone()
    ensures UpdateValidatePhoneAsWritten(Some("123-456")).Ok?
    ensures ValidatePhone(Some("123-456")).Err?
  {
    ShortPhoneRejected();
  }
}
