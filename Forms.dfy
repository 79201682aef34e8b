/**
 * The three web forms' field constraints. Each form is a record of nullable
 * fields; its Bean Validation annotations are listed, field by field, as
 * constraint sequences, and `Violations` evaluates them the way a validator
 * does (`@Size`, `@Min` and `@Max` accept null; `@NotNull` and `@NotEmpty`
 * do not). `Valid` states the same rules directly, per field, and each
 * form's `Violations` is empty exactly when the form is `Valid`.
 */
module Forms {
  import opened Wrappers
  import opened JavaText

  datatype TextConstraint =
    | NotNull(message: string)
    | NotEmpty(message: string)
    | SizeMin(min: nat, message: string)

  datatype IntConstraint =
    | IntNotNull(message: string)
    | Min(bound: int, message: string)
    | Max(bound: int, message: string)

  /** A field name with the message of the constraint it breaks. */
  datatype Violation = Violation(field: string, message: string)

  predicate TextSatisfies(c: TextConstraint, v: Option<string>)
  {
    match c
    case NotNull(_) => v.Some?
    case NotEmpty(_) => v.Some? && JavaLength(v.value) > 0
    case SizeMin(min, _) => v.None? || JavaLength(v.value) >= min
  }

  predicate IntSatisfies(c: IntConstraint, v: Option<int>)
  {
    match c
    case IntNotNull(_) => v.Some?
    case Min(bound, _) => v.None? || v.value >= bound
    case Max(bound, _) => v.None? || v.value <= bound
  }

  /** The violations one text field's constraints report. */
  function TextViolations(field: string, v: Option<string>, cs: seq<TextConstraint>): (errors: set<Violation>)
    ensures errors == {} <==> forall i :: 0 <= i < |cs| ==> TextSatisfies(cs[i], v)
    ensures forall e :: e in errors ==> e.field == field
  {
    if cs == [] then {}
    else
      var c := cs[|cs| - 1];
      TextViolations(field, v, cs[..|cs| - 1]) + (if TextSatisfies(c, v) then {} else {Violation(field, c.message)})
  }

  /** The violations one integer field's constraints report. */
  function IntViolations(field: string, v: Option<int>, cs: seq<IntConstraint>): (errors: set<Violation>)
    ensures errors == {} <==> forall i :: 0 <= i < |cs| ==> IntSatisfies(cs[i], v)
    ensures forall e :: e in errors ==> e.field == field
  {
    if cs == [] then {}
    else
      var c := cs[|cs| - 1];
      IntViolations(field, v, cs[..|cs| - 1]) + (if IntSatisfies(c, v) then {} else {Violation(field, c.message)})
  }

  /** The violation one constraint contributes. */
  function TextReport(field: string, c: TextConstraint, v: Option<string>): set<Violation>
  {
    if TextSatisfies(c, v) then {} else {Violation(field, c.message)}
  }

  function IntReport(field: string, c: IntConstraint, v: Option<int>): set<Violation>
  {
    if IntSatisfies(c, v) then {} else {Violation(field, c.message)}
  }

  lemma TextViolationsOfPair(field: string, v: Option<string>, c0: TextConstraint, c1: TextConstraint)
    ensures TextViolations(field, v, [c0, c1]) == TextReport(field, c0, v) + TextReport(field, c1, v)
  {
    assert [c0, c1][..1] == [c0];
    assert [c0][..0] == [];
  }

  lemma IntViolationsOfOne(field: string, v: Option<int>, c0: IntConstraint)
    ensures IntViolations(field, v, [c0]) == IntReport(field, c0, v)
  {
    assert [c0][..0] == [];
  }

  lemma IntViolationsOfTriple(field: string, v: Option<int>, c0: IntConstraint, c1: IntConstraint, c2: IntConstraint)
    ensures IntViolations(field, v, [c0, c1, c2]) == IntReport(field, c0, v) + IntReport(field, c1, v) + IntReport(field, c2, v)
  {
    assert [c0, c1, c2][..2] == [c0, c1];
    assert [c0, c1][..1] == [c0];
    assert [c0][..0] == [];
    assert IntViolations(field, v, [c0]) == IntReport(field, c0, v);
    assert IntViolations(field, v, [c0, c1]) == IntReport(field, c0, v) + IntReport(field, c1, v);
  }

  // ---------------------------------------------------------------------
  // The annotations, as the forms declare them

  /** The validator's default message for `@NotNull` without one. */
  const DefaultNotNullMessage: string := "must not be null"

  const UsernameConstraints: seq<TextConstraint> :=
    [NotNull(DefaultNotNullMessage), SizeMin(6, "Username must be at least 6 characters long")]

  const PasswordConstraints: seq<TextConstraint> :=
    [NotNull(DefaultNotNullMessage), SizeMin(8, "Password must be at least 8 characters long")]

  function NameConstraints(which: string): seq<TextConstraint>
  {
    [NotNull("Please enter a valid name"), NotEmpty(which + " Name is required")]
  }

  const AgeConstraints: seq<IntConstraint> :=
    [IntNotNull("Age is required"), Min(1, "The value must be positive"), Max(126, "The value must be less than 127")]

  const AgeRequired: seq<IntConstraint> := [IntNotNull("Age is required")]

  // ---------------------------------------------------------------------
  // The per-field rules

  /** `@NotNull @Size(min = 6)`. */
  predicate UsernameValid(v: Option<string>)
  {
    v.Some? && JavaLength(v.value) >= 6
  }

  /** `@NotNull @Size(min = 8)`: no upper bound. */
  predicate PasswordValid(v: Option<string>)
  {
    v.Some? && JavaLength(v.value) >= 8
  }

  /** `@NotNull @NotEmpty`: a name of spaces passes. */
  predicate NameValid(v: Option<string>)
  {
    v.Some? && JavaLength(v.value) > 0
  }

  /** `@NotNull @Min(1) @Max(126)`. */
  predicate AgeInRange(v: Option<int>)
  {
    v.Some? && 1 <= v.value <= 126
  }

  lemma UsernameConstraintsMean(field: string, v: Option<string>)
    ensures TextViolations(field, v, UsernameConstraints) == {} <==> UsernameValid(v)
  {
    TextViolationsOfPair(field, v, UsernameConstraints[0], UsernameConstraints[1]);
  }

  lemma PasswordConstraintsMean(field: string, v: Option<string>)
    ensures TextViolations(field, v, PasswordConstraints) == {} <==> PasswordValid(v)
  {
    TextViolationsOfPair(field, v, PasswordConstraints[0], PasswordConstraints[1]);
  }

  lemma NameConstraintsMean(field: string, which: string, v: Option<string>)
    ensures TextViolations(field, v, NameConstraints(which)) == {} <==> NameValid(v)
  {
    TextViolationsOfPair(field, v, NameConstraints(which)[0], NameConstraints(which)[1]);
  }

  lemma AgeConstraintsMean(field: string, v: Option<int>)
    ensures IntViolations(field, v, AgeConstraints) == {} <==> AgeInRange(v)
  {
    IntViolationsOfTriple(field, v, AgeConstraints[0], AgeConstraints[1], AgeConstraints[2]);
  }

  // ---------------------------------------------------------------------
  // The forms

  datatype RegisterOrUpdateForm = RegisterOrUpdateForm(
    username: Option<string>,
    password: Option<string>,
    firstName: Option<string>,
    lastName: Option<string>,
    age: Option<int>)
  {
    predicate Valid()
    {
      UsernameValid(username) && PasswordValid(password) &&
      NameValid(firstName) && NameValid(lastName) && AgeInRange(age)
    }

    function Violations(): (errors: set<Violation>)
      ensures errors == {} <==> Valid()
    {
      UsernameConstraintsMean("username", username);
      PasswordConstraintsMean("password", password);
      NameConstraintsMean("firstName", "First", firstName);
      NameConstraintsMean("lastName", "Last", lastName);
      AgeConstraintsMean("age", age);
      TextViolations("username", username, UsernameConstraints)
      + TextViolations("password", password, PasswordConstraints)
      + TextViolations("firstName", firstName, NameConstraints("First"))
      + TextViolations("lastName", lastName, NameConstraints("Last"))
      + IntViolations("age", age, AgeConstraints)
    }

    /** The same fields in a `RegisterForm`. */
    function AsRegisterForm(): RegisterForm
    {
      RegisterForm(username, password, firstName, lastName, age)
    }
  }

  datatype RegisterForm = RegisterForm(
    username: Option<string>,
    password: Option<string>,
    firstName: Option<string>,
    lastName: Option<string>,
    age: Option<int>)
  {
    /** As `RegisterOrUpdateForm`, except that any present age passes. */
    predicate Valid()
    {
      UsernameValid(username) && PasswordValid(password) &&
      NameValid(firstName) && NameValid(lastName) && age.Some?
    }

    function Violations(): (errors: set<Violation>)
      ensures errors == {} <==> Valid()
    {
      UsernameConstraintsMean("username", username);
      PasswordConstraintsMean("password", password);
      NameConstraintsMean("firstName", "First", firstName);
      NameConstraintsMean("lastName", "Last", lastName);
      IntViolationsOfOne("age", age, AgeRequired[0]);
      TextViolations("username", username, UsernameConstraints)
      + TextViolations("password", password, PasswordConstraints)
      + TextViolations("firstName", firstName, NameConstraints("First"))
      + TextViolations("lastName", lastName, NameConstraints("Last"))
      + IntViolations("age", age, AgeRequired)
    }
  }

  datatype UpdatePasswordForm = UpdatePasswordForm(
    username: Option<string>,
    currentPassword: Option<string>,
    newPassword: Option<string>,
    confirmNewPassword: Option<string>)
  {
    /** Four independent field rules; nothing relates the new password to its confirmation. */
    predicate Valid()
    {
      UsernameValid(username) && PasswordValid(currentPassword) &&
      PasswordValid(newPassword) && PasswordValid(confirmNewPassword)
    }

    function Violations(): (errors: set<Violation>)
      ensures errors == {} <==> Valid()
    {
      UsernameConstraintsMean("username", username);
      PasswordConstraintsMean("currentPassword", currentPassword);
      PasswordConstraintsMean("newPassword", newPassword);
      PasswordConstraintsMean("confirmNewPassword", confirmNewPassword);
      TextViolations("username", username, UsernameConstraints)
      + TextViolations("currentPassword", currentPassword, PasswordConstraints)
      + TextViolations("newPassword", newPassword, PasswordConstraints)
      + TextViolations("confirmNewPassword", confirmNewPassword, PasswordConstraints)
    }
  }

  // ---------------------------------------------------------------------
  // Properties

  /** The age bounds are inclusive: 1 and 126 pass, 0, 127 and null do not. */
  lemma AgeBoundaries()
    ensures AgeInRange(Some(1)) && AgeInRange(Some(126))
    ensures !AgeInRange(Some(0)) && !AgeInRange(Some(127)) && !AgeInRange(None)
  {
  }

  /** A registration-or-update form is a valid registration form whose age is in range. */
  lemma RegisterOrUpdateIsRegisterWithAgeRange(f: RegisterOrUpdateForm)
    ensures f.Valid() <==> f.AsRegisterForm().Valid() && 1 <= f.age.value <= 126
  {
  }

  /** A null age is the only way `RegisterForm` rejects an age, and it is
      reported with the message "Age is required". */
  lemma RegisterFormAgeOnlyRequired(f: RegisterForm)
    ensures Violation("age", "Age is required") in f.Violations() <==> f.age.None?
    ensures forall e :: e in f.Violations() && e.field == "age" ==> e.message == "Age is required"
  {
    IntViolationsOfOne("age", f.age, AgeRequired[0]);
  }

  /** A null first name breaks both of its constraints, so two messages are reported. */
  lemma NullNameReportsTwice(f: RegisterOrUpdateForm)
    requires f.firstName.None?
    ensures Violation("firstName", "Please enter a valid name") in f.Violations()
    ensures Violation("firstName", "First Name is required") in f.Violations()
  {
    var cs := NameConstraints("First");
    assert cs[1].message == "First Name is required";
    TextViolationsOfPair("firstName", f.firstName, cs[0], cs[1]);
  }

  /** A null username is reported only as null: `@Size` accepts null. */
  lemma NullUsernameReportedOnce(f: UpdatePasswordForm)
    requires f.username.None?
    ensures Violation("username", DefaultNotNullMessage) in f.Violations()
    ensures Violation("username", "Username must be at least 6 characters long") !in f.Violations()
  {
    TextViolationsOfPair("username", f.username, UsernameConstraints[0], UsernameConstraints[1]);
  }

  /** Sizes count UTF-16 units: three characters beyond the basic
      multilingual plane make a long-enough username, three letters do not. */
  lemma UsernameLengthInCodeUnits()
    ensures UsernameValid(Some("\U{1F600}\U{1F600}\U{1F600}"))
    ensures !UsernameValid(Some("abc"))
  {
    JavaLengthOfSupplementary("\U{1F600}\U{1F600}\U{1F600}");
    JavaLengthOfBmp("abc");
  }

  /** A name of one space passes `@NotEmpty`. */
  lemma BlankNamePasses()
    ensures NameValid(Some(" "))
  {
    JavaLengthOfBmp(" ");
  }

  /** The form accepts a new password that differs from its confirmation;
      that comparison is left to the caller. */
  lemma ConfirmationNotCompared()
    ensures UpdatePasswordForm(Some("bob_johnson"), Some("1234567!"), Some("abcdefgh"), Some("ABCDEFGH")).Valid()
  {
    JavaLengthOfBmp("bob_johnson");
    JavaLengthOfBmp("1234567!");
    JavaLengthOfBmp("abcdefgh");
    JavaLengthOfBmp("ABCDEFGH");
  }
}
