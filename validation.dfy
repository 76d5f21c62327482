/**
 * Input validation of the enhanced Flask service: the e-mail pattern
 * `^[a-zA-Z0-9._%+-]+@[a-zA-Z0-9.-]+\.[a-zA-Z]{2,}$` as Python's `re.match` applies it,
 * the accumulated field errors of `validate_user_data`, and the password rule of `register`.
 */
module Validation {
  import opened JsonValues

  predicate IsAsciiLetter(c: char) { 'a' <= c <= 'z' || 'A' <= c <= 'Z' }

  predicate IsDigit(c: char) { '0' <= c <= '9' }

  /** The class `[a-zA-Z0-9._%+-]` of the local part. */
  predicate IsLocalChar(c: char)
  {
    IsAsciiLetter(c) || IsDigit(c) || c == '.' || c == '_' || c == '%' || c == '+' || c == '-'
  }

  /** The class `[a-zA-Z0-9.-]` of the domain part. */
  predicate IsDomainChar(c: char)
  {
    IsAsciiLetter(c) || IsDigit(c) || c == '.' || c == '-'
  }

  predicate AllLocal(s: string) { forall k :: 0 <= k < |s| ==> IsLocalChar(s[k]) }

  predicate AllDomain(s: string) { forall k :: 0 <= k < |s| ==> IsDomainChar(s[k]) }

  predicate AllLetters(s: string) { forall k :: 0 <= k < |s| ==> IsAsciiLetter(s[k]) }

  /**
   * `s` reads L@D.T with the `@` at `at` and the `.` at `dot`: L is a non-empty run of
   * local characters, D a non-empty run of domain characters, T at least two letters
   * reaching the end of `s`.
   */
  predicate SplitsAt(s: string, at: int, dot: int)
  {
    && 0 < at && at + 1 < dot && dot + 3 <= |s|
    && s[at] == '@' && s[dot] == '.'
    && AllLocal(s[..at]) && AllDomain(s[at + 1..dot]) && AllLetters(s[dot + 1..])
  }

  /** The pattern matched against the whole of `s`. */
  ghost predicate EmailShape(s: string)
  {
    exists at, dot :: SplitsAt(s, at, dot)
  }

  /** What `re.match` accepts: the pattern's `$` also matches just before a final newline. */
  ghost predicate PatternMatches(s: string)
  {
    EmailShape(s) || (|s| > 0 && s[|s| - 1] == '\n' && EmailShape(s[..|s| - 1]))
  }

  /** The first position of `c` in `s`, or `|s|` when there is none. */
  function FirstIndexOf(s: string, c: char): (i: nat)
    ensures i <= |s|
    ensures i < |s| ==> s[i] == c
    ensures forall k :: 0 <= k < i ==> s[k] != c
  {
    if s == [] then 0 else if s[0] == c then 0 else 1 + FirstIndexOf(s[1..], c)
  }

  /** The last position of `c` in `s`, or -1 when there is none. */
  function LastIndexOf(s: string, c: char): (i: int)
    ensures -1 <= i < |s|
    ensures 0 <= i ==> s[i] == c
    ensures forall k :: i < k < |s| ==> s[k] != c
  {
    if s == [] then -1 else if s[|s| - 1] == c then |s| - 1 else LastIndexOf(s[..|s| - 1], c)
  }

  /**
   * Neither class of L or D nor the letters of T contain `@`, and T contains no `.`:
   * a split can only sit at the first `@` and at the last `.`.
   */
  lemma SplitIsUnique(s: string, at: int, dot: int)
    requires SplitsAt(s, at, dot)
    ensures at == FirstIndexOf(s, '@') && dot == LastIndexOf(s, '.')
  {
  }

  /** The pattern, anchored at both ends, checked at the first `@` and the last `.`. */
  function MatchesEmail(s: string): (ok: bool)
  {
    SplitsAt(s, FirstIndexOf(s, '@'), LastIndexOf(s, '.'))
  }

  lemma {:induction false} MatchesEmailIffShape(s: string)
    ensures MatchesEmail(s) <==> EmailShape(s)
  {
    if EmailShape(s) {
      var at, dot :| SplitsAt(s, at, dot);
      SplitIsUnique(s, at, dot);
    }
  }

  /** `validate_email`: true exactly for the strings `re.match` accepts with the pattern. */
  function ValidateEmail(email: string): (ok: bool)
    ensures ok <==> PatternMatches(email)
  {
    MatchesEmailIffShape(email);
    if |email| > 0 && email[|email| - 1] == '\n' then
      MatchesEmailIffShape(email[..|email| - 1]);
      MatchesEmail(email) || MatchesEmail(email[..|email| - 1])
    else
      MatchesEmail(email)
  }

  /** A well-formed address followed by a newline is accepted as well. */
  lemma TrailingNewlineAccepted(s: string)
    requires EmailShape(s)
    ensures ValidateEmail(s + "\n")
  {
    assert (s + "\n")[..|s|] == s;
  }

  const NameField := "name"
  const EmailField := "email"
  const PasswordField := "password"

  /** The name and the e-mail, where present, hold strings. */
  predicate TextFields(data: Payload)
  {
    && (NameField in data ==> data[NameField].JStr?)
    && (EmailField in data ==> data[EmailField].JStr?)
  }

  /** `len(data['password'])` does not raise: the password, where present, is a string, a list or a dict. */
  predicate PasswordMeasurable(data: Payload)
  {
    PasswordField in data ==> Len(data[PasswordField]).Some?
  }

  /** The `required_fields` of `validate_user_data` when the caller passes none. */
  const DefaultRequired: seq<string> := [NameField, EmailField]
  /** The `required_fields` of `register`. */
  const RegisterRequired: seq<string> := [NameField, EmailField, PasswordField]

  const InvalidEmailFormat := "Invalid email format"
  const NameTooShort := "Name must be at least 2 characters long"
  const NameTooLong := "Name must be less than 100 characters"
  const PasswordTooShort := "Password must be at least 6 characters long"

  function RequiredMessage(field: string): string
  {
    field + " is required"
  }

  lemma RequiredMessageInjective(f: string, g: string)
    requires RequiredMessage(f) == RequiredMessage(g)
    ensures f == g
  {
    assert |f| == |g|;
    assert f == RequiredMessage(f)[..|f|];
  }

  /**
   * Validation applies `len` to a truthy name and `re.match` to a truthy e-mail; neither
   * raises when the name is a string, a list or a dict and the e-mail is a string.
   */
  predicate Validatable(data: Payload)
  {
    && (Supplied(data, NameField) ==> Len(data[NameField]).Some?)
    && (Supplied(data, EmailField) ==> data[EmailField].JStr?)
  }

  /** The "<field> is required" messages, in the order of `fields`. */
  function RequiredErrors(data: Payload, fields: seq<string>): (errors: seq<string>)
    ensures |errors| <= |fields|
    ensures errors == [] <==> forall i :: 0 <= i < |fields| ==> Supplied(data, fields[i])
  {
    if fields == [] then []
    else
      (if Supplied(data, fields[0]) then [] else [RequiredMessage(fields[0])])
      + RequiredErrors(data, fields[1..])
  }

  /**
   * The messages follow the order of `required_fields`: the messages for a list split in two
   * are those for its first part followed by those for its second part.
   */
  lemma {:induction false} RequiredErrorsConcat(data: Payload, a: seq<string>, b: seq<string>)
    ensures RequiredErrors(data, a + b) == RequiredErrors(data, a) + RequiredErrors(data, b)
  {
    if a == [] {
      assert a + b == b;
    } else {
      var head := if Supplied(data, a[0]) then [] else [RequiredMessage(a[0])];
      assert (a + b)[0] == a[0] && (a + b)[1..] == a[1..] + b;
      RequiredErrorsConcat(data, a[1..], b);
      assert RequiredErrors(data, a + b) == head + (RequiredErrors(data, a[1..]) + RequiredErrors(data, b));
      assert RequiredErrors(data, a) == head + RequiredErrors(data, a[1..]);
    }
  }

  /** With name and e-mail both missing, the default list reports the name first. */
  lemma BothMissingInFieldOrder(data: Payload)
    requires !Supplied(data, NameField) && !Supplied(data, EmailField)
    ensures RequiredErrors(data, DefaultRequired) == [RequiredMessage(NameField), RequiredMessage(EmailField)]
  {
    RequiredErrorsConcat(data, [NameField], [EmailField]);
  }

  /** A field's message is reported exactly when the field is required and absent or falsy. */
  lemma {:induction false} RequiredErrorsExact(data: Payload, fields: seq<string>, f: string)
    ensures RequiredMessage(f) in RequiredErrors(data, fields) <==> f in fields && !Supplied(data, f)
  {
    if fields != [] {
      RequiredErrorsExact(data, fields[1..], f);
      if RequiredMessage(f) == RequiredMessage(fields[0]) {
        RequiredMessageInjective(f, fields[0]);
      }
      assert fields == [fields[0]] + fields[1..];
    }
  }

  ghost predicate EmailMalformed(data: Payload)
  {
    Supplied(data, EmailField) && data[EmailField].JStr? && !PatternMatches(data[EmailField].s)
  }

  predicate NameShort(data: Payload)
  {
    Supplied(data, NameField) && Len(data[NameField]).Some? && Len(data[NameField]).value < 2
  }

  predicate NameLong(data: Payload)
  {
    Supplied(data, NameField) && Len(data[NameField]).Some? && Len(data[NameField]).value > 100
  }

  /** The payload passes `validate_user_data` with `required`. */
  ghost predicate Acceptable(data: Payload, required: seq<string>)
  {
    && (forall i :: 0 <= i < |required| ==> Supplied(data, required[i]))
    && !EmailMalformed(data)
    && (Supplied(data, NameField) && Len(data[NameField]).Some? ==> 2 <= Len(data[NameField]).value <= 100)
  }

  function Count(b: bool): nat { if b then 1 else 0 }

  /**
   * The format and length messages of `validate_user_data`: the e-mail format first, then the
   * name length; each check runs only on a truthy field and none stops the others.
   */
  function FieldErrors(data: Payload): (errors: seq<string>)
    requires Validatable(data)
    ensures |errors| == Count(EmailMalformed(data)) + Count(NameShort(data)) + Count(NameLong(data))
    ensures InvalidEmailFormat in errors <==> EmailMalformed(data)
    ensures NameTooShort in errors <==> NameShort(data)
    ensures NameTooLong in errors <==> NameLong(data)
    ensures EmailMalformed(data) ==> errors[0] == InvalidEmailFormat
  {
    var emailErrors :=
      if Supplied(data, EmailField) && !ValidateEmail(data[EmailField].s) then [InvalidEmailFormat] else [];
    var nameErrors :=
      if Supplied(data, NameField) then
        var n := Len(data[NameField]).value;
        (if n < 2 then [NameTooShort] else []) + (if n > 100 then [NameTooLong] else [])
      else [];
    emailErrors + nameErrors
  }

  /** `validate_user_data`: the required-field messages first, then the format and length messages. */
  function ValidateUserData(data: Payload, required: seq<string>): (errors: seq<string>)
    requires Validatable(data)
    ensures var k := |RequiredErrors(data, required)|;
      && k <= |errors|
      && errors[..k] == RequiredErrors(data, required)
      && errors[k..] == FieldErrors(data)
    ensures errors == [] <==> Acceptable(data, required)
  {
    var missing := RequiredErrors(data, required);
    var errors := missing + FieldErrors(data);
    assert errors[..|missing|] == missing;
    assert errors[|missing|..] == FieldErrors(data);
    errors
  }

  /** A name alone passes when it is empty (not checked) or has 2 to 100 characters, both ends included. */
  lemma NameLengthBoundaries(name: string)
    ensures ValidateUserData(map[NameField := JStr(name)], []) == [] <==> name == "" || 2 <= |name| <= 100
  {
    var data := map[NameField := JStr(name)];
    assert !Supplied(data, EmailField);
  }

  /** `'password' in data and len(data['password']) < 6`, for a password whose length is defined. */
  predicate PasswordShort(data: Payload)
  {
    PasswordField in data && Len(data[PasswordField]).Some? && Len(data[PasswordField]).value < 6
  }

  /** The errors `register` collects: those of `validate_user_data` and then the password length rule. */
  function RegistrationErrors(data: Payload): (errors: seq<string>)
    requires Validatable(data) && PasswordMeasurable(data)
    ensures errors == [] <==> Acceptable(data, RegisterRequired) && !PasswordShort(data)
  {
    ValidateUserData(data, RegisterRequired) + if PasswordShort(data) then [PasswordTooShort] else []
  }

  /** The registration errors are those of `validate_user_data`, then at most the password message. */
  lemma RegistrationErrorsLayout(data: Payload)
    requires Validatable(data) && PasswordMeasurable(data)
    ensures var v := ValidateUserData(data, RegisterRequired);
      var errors := RegistrationErrors(data);
      && |v| <= |errors| <= |v| + 1
      && errors[..|v|] == v
      && errors[|v|..] == (if PasswordShort(data) then [PasswordTooShort] else [])
  {
    var v := ValidateUserData(data, RegisterRequired);
    assert RegistrationErrors(data)[..|v|] == v;
  }

  /** An empty password ("", [] or {}) is both missing and too short: two messages. */
  lemma EmptyPasswordReportedTwice(data: Payload)
    requires Validatable(data)
    requires PasswordField in data && Len(data[PasswordField]) == Some(0)
    ensures RequiredMessage(PasswordField) in RegistrationErrors(data)
    ensures PasswordTooShort in RegistrationErrors(data)
  {
    var errors := RegistrationErrors(data);
    var v := ValidateUserData(data, RegisterRequired);
    RegistrationErrorsLayout(data);
    RequiredErrorsExact(data, RegisterRequired, PasswordField);
    var req := RequiredErrors(data, RegisterRequired);
    assert RequiredMessage(PasswordField) in errors[..|v|][..|req|];
    assert PasswordTooShort in errors[|v|..];
  }
}
