/**
  The request validators of the server. Each either refuses the request
  with status 400 and an error text, or passes it on, possibly with some
  fields sanitised. Body fields are options: absent or present.
 */
module Validation {
  import opened Common
  import opened Strings
  import opened SharedApi

  /** The outcome of a validator. */
  datatype Verdict<B> = Refuse(error: string) | Pass(body: B)

  /** A valid e-mail address has no white space, so trimming it changes
      nothing, and lowering it keeps it valid. */
  lemma ValidEmailSanitises(e: string)
    requires ValidateEmail(e)
    ensures forall i :: 0 <= i < |e| ==> !IsSpace(e[i])
    ensures Trim(Lower(e)) == Lower(e) && ValidateEmail(Lower(e))
  {
    var a := IndexOfChar(e, '@').value;
    assert forall i :: 0 <= i < |e| ==> !IsSpace(e[i]) by {
      forall i | 0 <= i < |e| ensures !IsSpace(e[i]) {
        if i < a {
          assert e[..a][i] == e[i];
        } else if i > a {
          assert e[a + 1..][i - a - 1] == e[i];
        }
      }
    }
    LowerKeepsSpace(e);
    TrimNoSpace(Lower(e));
    ValidateEmailIgnoresCase(e);
  }

  // ---------------------------------------------------------------------------
  // Users and admins

  datatype RegistrationBody = RegistrationBody(
    name: Option<string>, email: Option<string>, password: Option<string>, confirmPassword: Option<string>)

  const ALL_FIELDS_REQUIRED := "All fields are required"
  const INVALID_EMAIL := "Invalid email format"
  const PASSWORD_TOO_SHORT := "Password must be at least 6 characters long"
  const PASSWORDS_DIFFER := "Passwords do not match"

  /** `validateUserRegistration`: all four fields present and non-empty,
      then a valid e-mail, then a password of six or more characters, then
      a matching confirmation; on success the name is trimmed and the
      e-mail lowered and trimmed. */
  function ValidateUserRegistration(b: RegistrationBody): (v: Verdict<RegistrationBody>)
    ensures v.Pass? <==> IsTruthy(b.name) && IsTruthy(b.email) && IsTruthy(b.password) && IsTruthy(b.confirmPassword)
                         && ValidateEmail(b.email.value) && |b.password.value| >= 6 && b.password == b.confirmPassword
    ensures v.Refuse? ==>
              v.error == (if !(IsTruthy(b.name) && IsTruthy(b.email) && IsTruthy(b.password) && IsTruthy(b.confirmPassword)) then ALL_FIELDS_REQUIRED
                          else if !ValidateEmail(b.email.value) then INVALID_EMAIL
                          else if |b.password.value| < 6 then PASSWORD_TOO_SHORT
                          else PASSWORDS_DIFFER)
    ensures v.Pass? ==> v.body == b.(name := Some(Trim(b.name.value)), email := Some(Lower(b.email.value)))
    ensures v.Pass? ==> ValidateEmail(v.body.email.value)
  {
    if !IsTruthy(b.name) || !IsTruthy(b.email) || !IsTruthy(b.password) || !IsTruthy(b.confirmPassword) then
      Refuse(ALL_FIELDS_REQUIRED)
    else if !ValidateEmail(b.email.value) then Refuse(INVALID_EMAIL)
    else if !ValidatePassword(b.password) then Refuse(PASSWORD_TOO_SHORT)
    else if b.password != b.confirmPassword then Refuse(PASSWORDS_DIFFER)
    else
      ValidEmailSanitises(b.email.value);
      Pass(b.(name := Some(Trim(b.name.value)), email := Some(Trim(Lower(b.email.value)))))
  }

  /** A name of white space only is accepted and stored empty, so the
      sanitised body would itself be refused. */
  lemma RegistrationAcceptsBlankName(b: RegistrationBody)
    requires IsTruthy(b.name) && forall i :: 0 <= i < |b.name.value| ==> IsSpace(b.name.value[i])
    requires IsTruthy(b.email) && ValidateEmail(b.email.value)
    requires ValidatePassword(b.password) && b.confirmPassword == b.password
    ensures ValidateUserRegistration(b).Pass?
    ensures ValidateUserRegistration(b).body.name == Some("")
    ensures ValidateUserRegistration(ValidateUserRegistration(b).body) == Refuse(ALL_FIELDS_REQUIRED)
  {
    TrimEmptyIffAllSpace(b.name.value);
  }

  datatype LoginBody = LoginBody(email: Option<string>, password: Option<string>)

  const CREDENTIALS_REQUIRED := "Email and password are required"

  /** `validateUserLogin` and `validateAdminLogin`, which are the same
      rule: both fields present and non-empty, and a valid e-mail, which is
      then lowered and trimmed. */
  function ValidateLogin(b: LoginBody): (v: Verdict<LoginBody>)
    ensures v.Pass? <==> IsTruthy(b.email) && IsTruthy(b.password) && ValidateEmail(b.email.value)
    ensures v.Refuse? ==> v.error == (if IsTruthy(b.email) && IsTruthy(b.password) then INVALID_EMAIL else CREDENTIALS_REQUIRED)
    ensures v.Pass? ==> v.body == b.(email := Some(Lower(b.email.value)))
  {
    if !IsTruthy(b.email) || !IsTruthy(b.password) then Refuse(CREDENTIALS_REQUIRED)
    else if !ValidateEmail(b.email.value) then Refuse(INVALID_EMAIL)
    else
      ValidEmailSanitises(b.email.value);
      Pass(b.(email := Some(Trim(Lower(b.email.value)))))
  }

  /** Validating a login body twice is validating it once. */
  lemma ValidateLoginIdempotent(b: LoginBody)
    requires ValidateLogin(b).Pass?
    ensures ValidateLogin(ValidateLogin(b).body) == ValidateLogin(b)
  {
    ValidEmailSanitises(b.email.value);
    LowerIdempotent(b.email.value);
  }

  // ---------------------------------------------------------------------------
  // Complaints

  datatype CreationBody = CreationBody(
    text: Option<string>, category: Option<string>, department: Option<string>, departmentEmail: Option<string>)

  const TEXT_TOO_SHORT := "Complaint description must be at least 10 characters long"
  const INVALID_DEPARTMENT_EMAIL := "Invalid department email format"

  predicate AllPresent(b: CreationBody)
  {
    IsTruthy(b.text) && IsTruthy(b.category) && IsTruthy(b.department) && IsTruthy(b.departmentEmail)
  }

  /** `validateComplaintCreation`: all four fields present and non-empty,
      then a trimmed text of ten or more characters (there is no upper
      bound), then a valid department e-mail; on success the three texts
      are trimmed and the e-mail lowered and trimmed. */
  function ValidateComplaintCreation(b: CreationBody): (v: Verdict<CreationBody>)
    ensures v.Pass? <==> AllPresent(b) && |Trim(b.text.value)| >= 10 && ValidateEmail(b.departmentEmail.value)
    ensures !AllPresent(b) ==> v == Refuse(ALL_FIELDS_REQUIRED)
    ensures v.Refuse? ==>
              v.error == (if !AllPresent(b) then ALL_FIELDS_REQUIRED
                          else if |Trim(b.text.value)| < 10 then TEXT_TOO_SHORT
                          else INVALID_DEPARTMENT_EMAIL)
    ensures v.Pass? ==> v.body == CreationBody(Some(Trim(b.text.value)), Some(Trim(b.category.value)),
                                               Some(Trim(b.department.value)), Some(Lower(b.departmentEmail.value)))
  {
    if !AllPresent(b) then Refuse(ALL_FIELDS_REQUIRED)
    else if |Trim(b.text.value)| < 10 then Refuse(TEXT_TOO_SHORT)
    else if !ValidateEmail(b.departmentEmail.value) then Refuse(INVALID_DEPARTMENT_EMAIL)
    else
      ValidEmailSanitises(b.departmentEmail.value);
      Pass(CreationBody(Some(Trim(b.text.value)), Some(Trim(b.category.value)),
                        Some(Trim(b.department.value)), Some(Trim(Lower(b.departmentEmail.value)))))
  }

  /** Re-validating a sanitised complaint accepts it and changes nothing,
      provided category and department were not white space only. */
  lemma ValidateComplaintCreationIdempotent(b: CreationBody)
    requires ValidateComplaintCreation(b).Pass?
    requires |Trim(b.category.value)| > 0 && |Trim(b.department.value)| > 0
    ensures ValidateComplaintCreation(ValidateComplaintCreation(b).body) == ValidateComplaintCreation(b)
  {
    ValidEmailSanitises(b.departmentEmail.value);
    LowerIdempotent(b.departmentEmail.value);
    TrimIdempotent(b.text.value);
    TrimIdempotent(b.category.value);
    TrimIdempotent(b.department.value);
  }

  /** Without that proviso it fails: a category of white space only
      passes, is stored empty, and the stored body would be refused. */
  lemma BlankCategoryPassesOnce(b: CreationBody)
    requires ValidateComplaintCreation(b).Pass?
    requires forall i :: 0 <= i < |b.category.value| ==> IsSpace(b.category.value[i])
    ensures ValidateComplaintCreation(b).body.category == Some("")
    ensures ValidateComplaintCreation(ValidateComplaintCreation(b).body) == Refuse(ALL_FIELDS_REQUIRED)
  {
    TrimEmptyIffAllSpace(b.category.value);
  }

  const STATUS_REQUIRED := "Status is required"
  const INVALID_STATUS := "Invalid status value"

  /** `validateComplaintUpdate`: a present, non-empty status that is one of
      'Pending', 'In Progress' and 'Resolved'. */
  function ValidateComplaintUpdate(status: Option<string>): (v: Verdict<string>)
    ensures v.Pass? ==> status.Some? && v.body == status.value
    ensures !IsTruthy(status) ==> v == Refuse(STATUS_REQUIRED)
    ensures IsTruthy(status) && v.Refuse? ==> v == Refuse(INVALID_STATUS)
  {
    if !IsTruthy(status) then Refuse(STATUS_REQUIRED)
    else if status.value !in ["Pending", "In Progress", "Resolved"] then Refuse(INVALID_STATUS)
    else Pass(status.value)
  }

  /** The update validator accepts exactly the statuses offered to clients,
      so 'Rejected', a status the store knows, can never be set. */
  lemma ValidateComplaintUpdateAcceptsOfferedStatuses(status: Option<string>)
    ensures ValidateComplaintUpdate(status).Pass? <==> status.Some? && status.value in COMPLAINT_STATUS
    ensures ValidateComplaintUpdate(Some("Rejected")) == Refuse(INVALID_STATUS)
  {
    OptionListsOmitValues();
  }

  /** `isNaN` and `parseInt` on a query value, for values written as an
      optionally negative decimal integer; anything else reads as `NaN`. */
  function ReadInteger(s: string): Option<int>
  {
    if |s| > 0 && forall i :: 0 <= i < |s| ==> IsDigit(s[i]) then Some(DigitsValue(s))
    else if |s| > 1 && s[0] == '-' && forall i :: 0 <= i < |s| - 1 ==> IsDigit(s[1..][i]) then
      var v := 0 - DigitsValue(s[1..]) as int;
      Some(v)
    else None
  }

  lemma ReadIntegerOfNatToString(n: nat)
    ensures ReadInteger(NatToString(n)) == Some(n)
  {
    DigitsValueOfNatToString(n);
  }

  const LIMIT_OUT_OF_RANGE := "Limit must be a number between 1 and 100"
  const OFFSET_NEGATIVE := "Offset must be a non-negative number"

  /** A limit that is absent, empty or a number in 1..100. */
  predicate LimitAccepted(limit: Option<string>)
  {
    IsTruthy(limit) ==> ReadInteger(limit.value).Some? && 1 <= ReadInteger(limit.value).value <= 100
  }

  /** An offset that is absent, empty or a number of at least 0. */
  predicate OffsetAccepted(offset: Option<string>)
  {
    IsTruthy(offset) ==> ReadInteger(offset.value).Some? && ReadInteger(offset.value).value >= 0
  }

  /** `validateComplaintQuery`: a limit, if given, is a number in 1..100; an
      offset, if given, a number of at least 0; the limit is judged first. */
  function ValidateComplaintQuery(limit: Option<string>, offset: Option<string>): (v: Verdict<()>)
    ensures v.Pass? <==> LimitAccepted(limit) && OffsetAccepted(offset)
    ensures v.Refuse? ==> v.error == (if !LimitAccepted(limit) then LIMIT_OUT_OF_RANGE else OFFSET_NEGATIVE)
  {
    if IsTruthy(limit) && (ReadInteger(limit.value).None? || ReadInteger(limit.value).value < 1 || ReadInteger(limit.value).value > 100) then
      Refuse(LIMIT_OUT_OF_RANGE)
    else if IsTruthy(offset) && (ReadInteger(offset.value).None? || ReadInteger(offset.value).value < 0) then
      Refuse(OFFSET_NEGATIVE)
    else Pass(())
  }

  /** For numbers written in decimal, the query passes exactly when the
      limit is between 1 and 100; any offset of at least 0 is accepted, and
      omitting both always passes. */
  lemma ValidateComplaintQueryOfNumbers(limit: nat, offset: nat)
    ensures ValidateComplaintQuery(Some(NatToString(limit)), Some(NatToString(offset))).Pass? <==> 1 <= limit <= 100
    ensures ValidateComplaintQuery(None, None).Pass?
  {
    ReadIntegerOfNatToString(limit);
    ReadIntegerOfNatToString(offset);
  }

  const ID_REQUIRED := "Valid ID is required"

  /** `validateIdParameter`: refuses an id that is missing, empty or only
      white space. */
  function ValidateIdParameter(id: Option<string>): (v: Verdict<string>)
    ensures v.Pass? <==> id.Some? && exists i :: 0 <= i < |id.value| && !IsSpace(id.value[i])
    ensures v.Pass? ==> v.body == id.value
  {
    if !IsTruthy(id) then Refuse(ID_REQUIRED)
    else
      TrimEmptyIffAllSpace(id.value);
      if |Trim(id.value)| == 0 then Refuse(ID_REQUIRED) else Pass(id.value)
  }
}
