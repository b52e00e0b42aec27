/**
 * `PasswordValidator`, the class-level constraint behind `@ValidPassword`: on the three
 * request records that carry a password and its confirmation, the two must be equal;
 * every other object passes.
 */
module PasswordValidation {
  import opened Wrappers
  import opened Requests

  /** The object handed to `isValid`, by its runtime class. */
  datatype Validated =
    | Register(register: RegisterRequest)
    | CreateUser(create: CreateUserRequest)
    | UpdateUser(update: UpdateUserRequest)
    | OtherObject

  /** A constraint violation reported through the validator context. */
  datatype Violation = Violation(message: string, propertyNode: string)

  /** The answer of `isValid` and the violations it reported (the default one is disabled on failure). */
  datatype Verdict = Verdict(valid: bool, violations: seq<Violation>)

  /** `password().equals(...)` on a null password throws `NullPointerException`. */
  datatype ValidatorError = NullPassword

  const Mismatch: Violation := Violation("Passwords do not match", "confirmPassword")

  /** One branch of `isValid`: compare the password with its confirmation. */
  function CheckPair(password: Option<string>, confirmPassword: Option<string>): (r: Result<Verdict, ValidatorError>)
    ensures password.None? <==> r.Failure?
    ensures r.Success? ==> (r.value.valid <==> confirmPassword == Some(password.value))
    ensures r.Success? ==> r.value.violations == if r.value.valid then [] else [Mismatch]
  {
    match password
    case None => Failure(NullPassword)
    case Some(p) =>
      if confirmPassword.Some? && p == confirmPassword.value then Success(Verdict(true, []))
      else Success(Verdict(false, [Mismatch]))
  }

  /** The password and confirmation of the object, for the three records that carry them. */
  function PasswordFields(obj: Validated): Option<(Option<string>, Option<string>)>
  {
    match obj
    case Register(r) => Some((r.password, r.confirmPassword))
    case CreateUser(c) => Some((c.password, c.confirmPassword))
    case UpdateUser(u) => Some((u.password, u.confirmPassword))
    case OtherObject => None
  }

  /** `isValid`. */
  function IsValid(obj: Validated): (r: Result<Verdict, ValidatorError>)
    ensures obj.OtherObject? ==> r == Success(Verdict(true, []))
    ensures r.Success? ==> (!r.value.valid <==> r.value.violations == [Mismatch])
    ensures r.Success? ==> r.value.valid || |r.value.violations| == 1
  {
    match obj
    case Register(r) => CheckPair(r.password, r.confirmPassword)
    case CreateUser(c) => CheckPair(c.password, c.confirmPassword)
    case UpdateUser(u) => CheckPair(u.password, u.confirmPassword)
    case OtherObject => Success(Verdict(true, []))
  }

  /**
   * On each of the three records with a non-null password, the object is invalid exactly
   * when the two fields differ, and the mismatch is reported on `confirmPassword`.
   */
  lemma InvalidIffPasswordsDiffer(obj: Validated)
    requires PasswordFields(obj).Some? && PasswordFields(obj).value.0.Some?
    ensures var (password, confirmPassword) := PasswordFields(obj).value;
            IsValid(obj).Success? &&
            (!IsValid(obj).value.valid <==> password != confirmPassword) &&
            (!IsValid(obj).value.valid ==> IsValid(obj).value.violations[0].propertyNode == "confirmPassword")
  {
  }

  /** The comparison is plain equality: swapping two non-null fields gives the same answer. */
  lemma SwapIsSymmetric(password: string, confirmPassword: string)
    ensures CheckPair(Some(password), Some(confirmPassword)) == CheckPair(Some(confirmPassword), Some(password))
  {
  }
}
