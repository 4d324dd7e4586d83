/**
 The Login screen's form: two text fields, an error record with one message
 per field, the submit handler `handleCreateAccount` and the `onChangeText`
 handlers that clear a field's error as it is edited.
 */
module LoginScreen {
  import opened JsText
  import opened Validators
  import opened Alerts

  datatype LoginForm = LoginForm(email: JsString, password: JsString)

  /** `errorMessage`: one message per field, the empty string meaning no error. */
  datatype LoginErrors = LoginErrors(email: JsString, password: JsString)

  datatype LoginState = LoginState(form: LoginForm, errors: LoginErrors)

  datatype LoginField = Email | Password

  /** What the user can do: type into a field, or press the Log in button. */
  datatype LoginEvent = Type(field: LoginField, text: JsString) | Press

  /** The fresh error record of a submit and the `isValid` flag it derives. */
  datatype LoginVerdict = LoginVerdict(errors: LoginErrors, isValid: bool)

  /** The state after a submit, whether it passed, and the alert it raised. */
  datatype LoginSubmission = LoginSubmission(state: LoginState, isValid: bool, alert: Alert)

  /** Every field and every error entry starts out empty. */
  const Initial: LoginState := LoginState(LoginForm([], []), LoginErrors([], []))

  const LoginSuccessAlert: Alert := Alert("Log in success!", None)

  function Value(f: LoginForm, field: LoginField): JsString {
    match field
    case Email => f.email
    case Password => f.password
  }

  function ErrorOf(e: LoginErrors, field: LoginField): JsString {
    match field
    case Email => e.email
    case Password => e.password
  }

  /** The message a field's entry holds when its check fails. */
  function Message(field: LoginField): JsString {
    match field
    case Email => EmailMessage
    case Password => PasswordMessage
  }

  /** The check a field must pass on submit. Both fields are required: an
      empty value never passes. */
  function Passes(f: LoginForm, field: LoginField): (passes: bool)
    ensures passes ==> Value(f, field) != []
  {
    match field
    case Email => ValidateEmail(f.email)
    case Password => ValidatePassword(f.password)
  }

  /** `errors.<field> = message` on a copy of the record. */
  function SetError(e: LoginErrors, field: LoginField, message: JsString): (r: LoginErrors)
    ensures ErrorOf(r, field) == message
    ensures forall g | g != field :: ErrorOf(r, g) == ErrorOf(e, g)
  {
    match field
    case Email => e.(email := message)
    case Password => e.(password := message)
  }

  /** One `if (<check fails>) { errors.<field> = <message>; isValid = false; }`
      block of the submit handler. */
  function CheckField(v: LoginVerdict, f: LoginForm, field: LoginField): (r: LoginVerdict)
    ensures ErrorOf(r.errors, field) == (if Passes(f, field) then ErrorOf(v.errors, field) else Message(field))
    ensures forall g | g != field :: ErrorOf(r.errors, g) == ErrorOf(v.errors, g)
    ensures r.isValid <==> v.isValid && Passes(f, field)
  {
    if !Passes(f, field) then LoginVerdict(SetError(v.errors, field, Message(field)), false) else v
  }

  /** The checks of `handleCreateAccount`, in source order: start from an
      empty record and a true flag, and let each failing check write its
      message and clear the flag. No check is skipped after a failure. */
  function Validate(f: LoginForm): (r: LoginVerdict)
    ensures forall field :: ErrorOf(r.errors, field) == [] <==> Passes(f, field)
    ensures forall field :: ErrorOf(r.errors, field) != [] ==> ErrorOf(r.errors, field) == Message(field)
    ensures r.isValid <==> forall field :: ErrorOf(r.errors, field) == []
  {
    var v0 := LoginVerdict(LoginErrors([], []), true);
    var v1 := CheckField(v0, f, Email);
    var v2 := CheckField(v1, f, Password);
    assert |EmailMessage| > 0 && |PasswordMessage| > 0;
    assert ErrorOf(v2.errors, Email) == ErrorOf(v1.errors, Email);
    assert v2.isValid <==> ErrorOf(v2.errors, Email) == [] && ErrorOf(v2.errors, Password) == [];
    v2
  }

  /** `handleCreateAccount`: the stored error record is replaced wholesale by
      the fresh one, the fields are left alone, and the alert tells success
      from a validation error. */
  function Submit(s: LoginState): (r: LoginSubmission)
    ensures r.state.form == s.form
    ensures r.state.errors == Validate(s.form).errors
    ensures r.isValid <==> Passes(s.form, Email) && Passes(s.form, Password)
    ensures r.alert == (if r.isValid then LoginSuccessAlert else ValidationErrorAlert)
  {
    var verdict := Validate(s.form);
    var alert := if verdict.isValid then LoginSuccessAlert else ValidationErrorAlert;
    LoginSubmission(LoginState(s.form, verdict.errors), verdict.isValid, alert)
  }

  /** The `onChangeText` handler of one field: the field takes the new text
      and its error entry is cleared; the other field and its entry stay. */
  function Edit(s: LoginState, field: LoginField, text: JsString): (r: LoginState)
    ensures Value(r.form, field) == text && ErrorOf(r.errors, field) == []
    ensures forall g | g != field :: Value(r.form, g) == Value(s.form, g) && ErrorOf(r.errors, g) == ErrorOf(s.errors, g)
  {
    match field
    case Email => LoginState(s.form.(email := text), s.errors.(email := []))
    case Password => LoginState(s.form.(password := text), s.errors.(password := []))
  }

  function Step(s: LoginState, e: LoginEvent): LoginState {
    match e
    case Type(field, text) => Edit(s, field, text)
    case Press => Submit(s).state
  }

  function Run(s: LoginState, events: seq<LoginEvent>): LoginState
    decreases |events|
  {
    if events == [] then s else Run(Step(s, events[0]), events[1..])
  }

  /** Every error entry on screen is either empty, or the message of its field
      while the field's current value still fails that field's check. */
  ghost predicate ErrorsCurrent(s: LoginState) {
    forall field :: ErrorOf(s.errors, field) == []
      || (ErrorOf(s.errors, field) == Message(field) && !Passes(s.form, field))
  }

  /** Submitting twice in a row changes nothing the second time. */
  lemma SubmitIdempotent(s: LoginState)
    ensures Submit(Submit(s).state) == Submit(s)
  {
  }

  /** No error from an earlier submit survives a new one: the outcome depends
      on the fields only. */
  lemma SubmitForgetsOldErrors(s: LoginState, t: LoginState)
    requires s.form == t.form
    ensures Submit(s) == Submit(t)
  {
  }

  /** A field's entry after submit depends on that field's value alone, so a
      failing email does not hide the password's error, or the reverse. */
  lemma ChecksIndependent(f: LoginForm, g: LoginForm, field: LoginField)
    requires Value(f, field) == Value(g, field)
    ensures ErrorOf(Validate(f).errors, field) == ErrorOf(Validate(g).errors, field)
  {
    match field
    case Email =>
    case Password =>
  }

  /** One event keeps the error entries current. */
  lemma StepKeepsErrorsCurrent(s: LoginState, e: LoginEvent)
    requires ErrorsCurrent(s)
    ensures ErrorsCurrent(Step(s, e))
  {
    match e
    case Type(field, text) =>
    case Press =>
  }

  /** Whatever the user does from the initial screen, an error shown next to
      a field always belongs to that field and is still true of its value:
      editing clears it before it can go stale. */
  lemma {:induction false} RunKeepsErrorsCurrent(s: LoginState, events: seq<LoginEvent>)
    requires ErrorsCurrent(s)
    ensures ErrorsCurrent(Run(s, events))
    decreases |events|
  {
    if events != [] {
      StepKeepsErrorsCurrent(s, events[0]);
      RunKeepsErrorsCurrent(Step(s, events[0]), events[1..]);
    }
  }

  lemma InitialErrorsCurrent()
    ensures ErrorsCurrent(Initial)
    ensures forall events :: ErrorsCurrent(Run(Initial, events))
  {
    forall events
      ensures ErrorsCurrent(Run(Initial, events))
    {
      RunKeepsErrorsCurrent(Initial, events);
    }
  }

  /** A malformed email with a good password flags the email only. */
  lemma BadEmailFlagsEmailOnly(s: LoginState)
    requires s.form.email == "bademail" && s.form.password == "abcdef"
    ensures Submit(s).state.errors == LoginErrors(EmailMessage, [])
    ensures !Submit(s).isValid && Submit(s).alert == ValidationErrorAlert
  {
    EmailRejectsExamples();
    var e := Submit(s).state.errors;
    assert ErrorOf(e, Email) == EmailMessage && ErrorOf(e, Password) == [];
  }

  /** A well-formed email with a six-character password logs in. */
  lemma WellFormedPairLogsIn(s: LoginState)
    requires s.form.email == "a@b.com" && s.form.password == "abcdef"
    ensures Submit(s).state.errors == LoginErrors([], [])
    ensures Submit(s).isValid && Submit(s).alert == LoginSuccessAlert
  {
    assert MatchesAt("a@b.com", 0, 1, 3, 7);
    var e := Submit(s).state.errors;
    assert ErrorOf(e, Email) == [] && ErrorOf(e, Password) == [];
  }

  /** Pressing Log in on the untouched screen flags both fields. */
  lemma EmptyFormFlagsBoth(s: LoginState)
    requires s.form.email == [] && s.form.password == []
    ensures Submit(s).state.errors == LoginErrors(EmailMessage, PasswordMessage)
    ensures !Submit(s).isValid
  {
    EmailNeedsAtAfterStart([]);
    var e := Submit(s).state.errors;
    assert ErrorOf(e, Email) == EmailMessage && ErrorOf(e, Password) == PasswordMessage;
  }
}
