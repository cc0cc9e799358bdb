/** Registration input validation: the name check, the email check and their
    composition. Java exceptions become a `Fail` outcome carrying the error kind
    and its message; a Java `null` string is `None`. The repository lookup
    `existsByEmail` is membership in the set of registered emails. */
module Validation {
  import opened Chars
  import opened EmailPattern

  /** A Java string reference: `None` is `null`. */
  datatype Option<T> = None | Some(value: T)

  /** The two exception types the checks throw, with their messages. */
  datatype ValidationError = InvalidName(message: string) | InvalidEmail(message: string)

  /** A check either passes or throws one error. */
  datatype Outcome = Pass | Fail(error: ValidationError)

  const MaxNameLength := 100

  const NameMissing := "Please give your name!"
  const NameTooLong := "Name must be shorter than 100 characters!"
  const EmailMissing := "Please give an email address!"
  const EmailTaken := "Email already registered!"
  const EmailMalformed := "Please give a valid email address!"

  /** `s == null || s.isEmpty() || s.isBlank()` */
  predicate IsNullOrBlank(s: Option<string>)
  {
    s.None? || IsBlank(s.value)
  }

  /** `validateName`: a missing or blank name, then an over-long one, is refused. */
  function ValidateName(name: Option<string>): (r: Outcome)
    ensures r.Pass? <==> !IsNullOrBlank(name) && |name.value| <= MaxNameLength
    ensures r.Fail? ==> r.error.InvalidName?
  {
    if IsNullOrBlank(name) then Fail(InvalidName(NameMissing))
    else if |name.value| > MaxNameLength then Fail(InvalidName(NameTooLong))
    else Pass
  }

  /** `validateEmail`: blank, then already registered, then the format rule. */
  function ValidateEmail(email: Option<string>, registered: set<string>): (r: Outcome)
    ensures r.Pass? <==> !IsNullOrBlank(email) && email.value !in registered && IsWellFormed(email.value)
    ensures r.Fail? ==> r.error.InvalidEmail?
  {
    if IsNullOrBlank(email) then Fail(InvalidEmail(EmailMissing))
    else if email.value in registered then Fail(InvalidEmail(EmailTaken))
    else if !IsStructural(email.value) || HasAdjacentSpecials(email.value) then Fail(InvalidEmail(EmailMalformed))
    else Pass
  }

  /** `validateInputClientDto`: the name first, then the email. */
  function ValidateInput(name: Option<string>, email: Option<string>, registered: set<string>): (r: Outcome)
    ensures r.Pass? <==> ValidateName(name).Pass? && ValidateEmail(email, registered).Pass?
    ensures ValidateName(name).Fail? ==> r == ValidateName(name)
    ensures ValidateName(name).Pass? ==> r == ValidateEmail(email, registered)
  {
    match ValidateName(name)
    case Fail(e) => Fail(e)
    case Pass => ValidateEmail(email, registered)
  }

  /** A missing or blank name fails with the name message whatever the email and
      the registry hold, so no email check decides the outcome. */
  lemma BlankNameRejected(name: Option<string>, email: Option<string>, registered: set<string>)
    requires IsNullOrBlank(name)
    ensures ValidateInput(name, email, registered) == Fail(InvalidName(NameMissing))
  {
  }

  /** Past the blank check, a name is refused with the length message exactly
      when it is longer than 100 characters; exactly 100 passes. */
  lemma NameLengthBoundary(name: string)
    requires !IsBlank(name)
    ensures ValidateName(Some(name)) == Fail(InvalidName(NameTooLong)) <==> |name| > MaxNameLength
    ensures |name| == MaxNameLength ==> ValidateName(Some(name)) == Pass
  {
  }

  /** When both fields are bad, the caller sees the name error. */
  lemma NameErrorWins(name: Option<string>, email: Option<string>, registered: set<string>)
    requires ValidateName(name).Fail? && ValidateEmail(email, registered).Fail?
    ensures ValidateInput(name, email, registered).Fail?
    ensures ValidateInput(name, email, registered).error.InvalidName?
  {
  }

  /** A blank email is refused without consulting the registry: the outcome is
      the same for every registered set. */
  lemma BlankEmailIgnoresRegistry(email: Option<string>, r1: set<string>, r2: set<string>)
    requires IsNullOrBlank(email)
    ensures ValidateEmail(email, r1) == ValidateEmail(email, r2) == Fail(InvalidEmail(EmailMissing))
  {
  }

  /** A registered address is reported as a duplicate even when malformed. */
  lemma RegisteredBeforeFormat(email: string, registered: set<string>)
    requires !IsBlank(email) && email in registered
    ensures ValidateEmail(Some(email), registered) == Fail(InvalidEmail(EmailTaken))
  {
  }

  /** A non-blank, unregistered address that breaks the format rule fails with
      the format message. */
  lemma MalformedRejected(email: string, registered: set<string>)
    requires !IsBlank(email) && email !in registered && !IsWellFormed(email)
    ensures ValidateEmail(Some(email), registered) == Fail(InvalidEmail(EmailMalformed))
  {
  }

  /** Two adjacent specials make an unregistered address invalid, even when it
      fits the structural pattern. */
  lemma AdjacentSpecialsRejected(email: string, registered: set<string>)
    requires !IsBlank(email) && email !in registered && HasAdjacentSpecials(email)
    ensures ValidateEmail(Some(email), registered) == Fail(InvalidEmail(EmailMalformed))
  {
  }

  /** An accepted email has the shape of a structural address: one `@`, one
      dot after it, an alphanumeric first character. */
  lemma AcceptedEmailShape(email: string, registered: set<string>)
    requires ValidateEmail(Some(email), registered).Pass?
    ensures Count(email, '@') == 1 && IsAlnum(email[0])
    ensures exists i :: 0 <= i < |email| && email[i] == '@' && Count(email[i + 1..], '.') == 1
  {
    StructuralShape(email);
  }

  /** `validateInputClientDto` with name `""` and email `a@b.com` fails with the
      missing-name message. */
  lemma EmptyNameScenario()
    ensures ValidateInput(Some(""), Some("a@b.com"), {}) == Fail(InvalidName(NameMissing))
  {
  }

  /** `validateInputClientDto` with name `Alice Smith` and email
      `alice@example.com` passes against an empty registry. */
  lemma AliceScenario()
    ensures ValidateInput(Some("Alice Smith"), Some("alice@example.com"), {}) == Pass
  {
    assert !IsWhitespace("Alice Smith"[0]) && !IsWhitespace("alice@example.com"[0]);
    PlainAddressWellFormed();
  }

  /** Registering `bob@example.com` again fails with the duplicate message. */
  lemma DuplicateScenario()
    ensures ValidateInput(Some("Bob"), Some("bob@example.com"), {"bob@example.com"}) == Fail(InvalidEmail(EmailTaken))
  {
    assert !IsWhitespace("Bob"[0]) && !IsWhitespace("bob@example.com"[0]);
  }

  /** Addresses with neighbouring specials fail with the format message;
      `a..b@x.com` does although it fits the structural pattern
      (DoubleDotStructuralButRejected). */
  lemma AdjacentSpecialScenarios()
    ensures ValidateEmail(Some("a..b@x.com"), {}) == Fail(InvalidEmail(EmailMalformed))
    ensures ValidateEmail(Some("a.-b@x.com"), {}) == Fail(InvalidEmail(EmailMalformed))
  {
    var s, t := "a..b@x.com", "a.-b@x.com";
    assert !IsWhitespace(s[0]) && !IsWhitespace(t[0]);
    assert IsSpecial(s[1]) && IsSpecial(s[2]) && IsSpecial(t[1]) && IsSpecial(t[2]);
    AdjacentSpecialsRejected(s, {});
    AdjacentSpecialsRejected(t, {});
  }

  /** Addresses outside the structural pattern fail with the format message. */
  lemma MalformedScenarios()
    ensures ValidateEmail(Some("not-an-email"), {}) == Fail(InvalidEmail(EmailMalformed))
    ensures ValidateEmail(Some("a@b"), {}) == Fail(InvalidEmail(EmailMalformed))
  {
    assert !IsWhitespace("not-an-email"[0]) && !IsWhitespace("a@b"[0]);
    ConcreteAddressesRejected();
  }
}
