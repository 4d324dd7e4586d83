/**
 The Register screen's form: four text fields, an error record with one
 message per field, the submit handler `handleCreateAccount` and the four
 `onChangeText` handlers that clear a field's error as it is edited.
 */
module RegisterScreen {
  import opened JsText
  import opened Validators
  import opened Alerts
  import LoginScreen

  datatype RegisterForm = RegisterForm(
    userName: JsString, email: JsString, password: JsString, confirmPassword: JsString)

  /** `errorMessage`: one message per field, the empty string meaning no error. */
  datatype RegisterErrors = RegisterErrors(
    userName: JsString, email: JsString, password: JsString, confirmPassword: JsString)

  datatype RegisterState = RegisterState(form: RegisterForm, errors: RegisterErrors)

  datatype RegisterField = UserName | Email | Password | ConfirmPassword

  /** What the user can do: type into a field, or press Create New Account. */
  datatype RegisterEvent = Type(field: RegisterField, text: JsString) | Press

  /** The fresh error record of a submit and the `isValid` flag it derives. */
  datatype RegisterVerdict = RegisterVerdict(errors: RegisterErrors, isValid: bool)

  /** The state after a submit, whether it passed, and the alert it raised. */
  datatype RegisterSubmission = RegisterSubmission(state: RegisterState, isValid: bool, alert: Alert)

  const NoErrors: RegisterErrors := RegisterErrors([], [], [], [])

  /** Every field and every error entry starts out empty. */
  const Initial: RegisterState := RegisterState(RegisterForm([], [], [], []), NoErrors)

  const UserNameMessage: JsString := "User Name is required."
  const MismatchMessage: JsString := "Passwords do not match."

  const AccountCreated: JsString := "Account Created"
  const WelcomePrefix: JsString := "Welcome, "
  const WelcomeSuffix: JsString := "!"

  function Value(f: RegisterForm, field: RegisterField): JsString {
    match field
    case UserName => f.userName
    case Email => f.email
    case Password => f.password
    case ConfirmPassword => f.confirmPassword
  }

  function ErrorOf(e: RegisterErrors, field: RegisterField): JsString {
    match field
    case UserName => e.userName
    case Email => e.email
    case Password => e.password
    case ConfirmPassword => e.confirmPassword
  }

  /** The message a field's entry holds when its check fails. */
  function Message(field: RegisterField): JsString {
    match field
    case UserName => UserNameMessage
    case Email => EmailMessage
    case Password => PasswordMessage
    case ConfirmPassword => MismatchMessage
  }

  /** The check a field must pass on submit. The confirmation is compared
      with `!==`, exact code-unit equality with the password. The name, email
      and password are required: an empty value never passes them; an empty
      confirmation passes exactly when the password is empty too. */
  function Passes(f: RegisterForm, field: RegisterField): (passes: bool)
    ensures field != ConfirmPassword && passes ==> Value(f, field) != []
    ensures field == ConfirmPassword && Value(f, field) == [] ==> (passes <==> f.password == [])
  {
    match field
    case UserName => Trim(f.userName) != []
    case Email => ValidateEmail(f.email)
    case Password => ValidatePassword(f.password)
    case ConfirmPassword => f.password == f.confirmPassword
  }

  /** `errors.<field> = message` on a copy of the record. */
  function SetError(e: RegisterErrors, field: RegisterField, message: JsString): (r: RegisterErrors)
    ensures ErrorOf(r, field) == message
    ensures forall g | g != field :: ErrorOf(r, g) == ErrorOf(e, g)
  {
    match field
    case UserName => e.(userName := message)
    case Email => e.(email := message)
    case Password => e.(password := message)
    case ConfirmPassword => e.(confirmPassword := message)
  }

  /** One `if (<check fails>) { errors.<field> = <message>; isValid = false; }`
      block of the submit handler. */
  function CheckField(v: RegisterVerdict, f: RegisterForm, field: RegisterField): (r: RegisterVerdict)
    ensures ErrorOf(r.errors, field) == (if Passes(f, field) then ErrorOf(v.errors, field) else Message(field))
    ensures forall g | g != field :: ErrorOf(r.errors, g) == ErrorOf(v.errors, g)
    ensures r.isValid <==> v.isValid && Passes(f, field)
  {
    if !Passes(f, field) then RegisterVerdict(SetError(v.errors, field, Message(field)), false) else v
  }

  /** The checks of `handleCreateAccount`, in source order: start from an
      empty record and a true flag, and let each failing check write its
      message and clear the flag. No check is skipped after a failure. */
  function Validate(f: RegisterForm): (r: RegisterVerdict)
    ensures forall field :: ErrorOf(r.errors, field) == [] <==> Passes(f, field)
    ensures forall field :: ErrorOf(r.errors, field) != [] ==> ErrorOf(r.errors, field) == Message(field)
    ensures r.isValid <==> forall field :: ErrorOf(r.errors, field) == []
  {
    var v0 := RegisterVerdict(NoErrors, true);
    var v1 := CheckField(v0, f, UserName);
    var v2 := CheckField(v1, f, Email);
    var v3 := CheckField(v2, f, Password);
    var v4 := CheckField(v3, f, ConfirmPassword);
    EveryCheckApplied(f, v1, v2, v3, v4);
    v4
  }

  /** After the four blocks, starting from the empty record, each entry is
      its field's message if that field's check failed and empty otherwise. */
  lemma EveryCheckApplied(f: RegisterForm, v1: RegisterVerdict, v2: RegisterVerdict, v3: RegisterVerdict, v4: RegisterVerdict)
    requires v1 == CheckField(RegisterVerdict(NoErrors, true), f, UserName)
    requires v2 == CheckField(v1, f, Email)
    requires v3 == CheckField(v2, f, Password) && v4 == CheckField(v3, f, ConfirmPassword)
    ensures forall field :: ErrorOf(v4.errors, field) == [] <==> Passes(f, field)
    ensures forall field :: ErrorOf(v4.errors, field) != [] ==> ErrorOf(v4.errors, field) == Message(field)
    ensures v4.isValid <==> forall field :: ErrorOf(v4.errors, field) == []
  {
    MessagesNonEmpty();
    forall field
      ensures ErrorOf(v4.errors, field) == (if Passes(f, field) then [] else Message(field))
    {
      match field
      case UserName =>
      case Email =>
      case Password =>
      case ConfirmPassword =>
    }
    assert v4.isValid <==> Passes(f, UserName) && Passes(f, Email) && Passes(f, Password) && Passes(f, ConfirmPassword);
  }

  lemma MessagesNonEmpty()
    ensures forall field :: |Message(field)| > 0
  {
    forall field
      ensures |Message(field)| > 0
    {
      match field
      case UserName =>
      case Email =>
      case Password =>
      case ConfirmPassword =>
    }
  }

  /** The message of the success alert, `Welcome, ${userName}!`: the user
      name is embedded verbatim, untrimmed, between the fixed prefix and the
      closing `!`. */
  function Welcome(userName: JsString): (m: JsString)
    ensures |m| == |WelcomePrefix| + |userName| + |WelcomeSuffix|
    ensures m[..|WelcomePrefix|] == WelcomePrefix
    ensures m[|WelcomePrefix|..|WelcomePrefix| + |userName|] == userName
    ensures m[|WelcomePrefix| + |userName|..] == WelcomeSuffix
  {
    WelcomePrefix + userName + WelcomeSuffix
  }

  /** `handleCreateAccount`: the stored error record is replaced wholesale by
      the fresh one, the fields are left alone, and the alert tells success,
      greeting the user by name, from a validation error. */
  function Submit(s: RegisterState): (r: RegisterSubmission)
    ensures r.state.form == s.form
    ensures r.state.errors == Validate(s.form).errors
    ensures r.isValid <==> forall field :: Passes(s.form, field)
    ensures r.alert == (if r.isValid then Alert(AccountCreated, Some(Welcome(s.form.userName))) else ValidationErrorAlert)
  {
    var verdict := Validate(s.form);
    var alert :=
      if verdict.isValid then Alert(AccountCreated, Some(Welcome(s.form.userName))) else ValidationErrorAlert;
    RegisterSubmission(RegisterState(s.form, verdict.errors), verdict.isValid, alert)
  }

  /** The `onChangeText` handler of one field: the field takes the new text
      and its error entry is cleared; the other three fields and their
      entries stay. */
  function Edit(s: RegisterState, field: RegisterField, text: JsString): (r: RegisterState)
    ensures Value(r.form, field) == text && ErrorOf(r.errors, field) == []
    ensures forall g | g != field :: Value(r.form, g) == Value(s.form, g) && ErrorOf(r.errors, g) == ErrorOf(s.errors, g)
  {
    match field
    case UserName => RegisterState(s.form.(userName := text), s.errors.(userName := []))
    case Email => RegisterState(s.form.(email := text), s.errors.(email := []))
    case Password => RegisterState(s.form.(password := text), s.errors.(password := []))
    case ConfirmPassword => RegisterState(s.form.(confirmPassword := text), s.errors.(confirmPassword := []))
  }

  function Step(s: RegisterState, e: RegisterEvent): RegisterState {
    match e
    case Type(field, text) => Edit(s, field, text)
    case Press => Submit(s).state
  }

  function Run(s: RegisterState, events: seq<RegisterEvent>): RegisterState
    decreases |events|
  {
    if events == [] then s else Run(Step(s, events[0]), events[1..])
  }

  /** Every error entry is empty or holds its own field's message. */
  ghost predicate ErrorsWellFormed(s: RegisterState) {
    forall field :: ErrorOf(s.errors, field) == [] || ErrorOf(s.errors, field) == Message(field)
  }

  /** The entries of the fields whose check reads that field alone are current:
      when one shows an error, the field's value still fails its check. */
  ghost predicate SingleFieldErrorsCurrent(s: RegisterState) {
    forall field | field != ConfirmPassword :: ErrorOf(s.errors, field) == [] || !Passes(s.form, field)
  }

  /** The user-name rule in plain terms: the name is reported missing exactly
      when it consists of white space only, so the empty name and a name of
      spaces, tabs or line breaks are both rejected. */
  lemma UserNameRequired(f: RegisterForm)
    ensures ErrorOf(Validate(f).errors, UserName) == UserNameMessage
      <==> forall k | 0 <= k < |f.userName| :: IsWhiteSpace(f.userName[k])
  {
    TrimEmptyIff(f.userName);
    assert |UserNameMessage| > 0;
  }

  /** The email and password entries are those the Login screen computes for
      the same two values: same predicates, same messages. */
  lemma SharedChecksAgreeWithLogin(f: RegisterForm)
    ensures var l := LoginScreen.Validate(LoginScreen.LoginForm(f.email, f.password)).errors;
      && ErrorOf(Validate(f).errors, Email) == l.email
      && ErrorOf(Validate(f).errors, Password) == l.password
  {
    var lf := LoginScreen.LoginForm(f.email, f.password);
    assert LoginScreen.Passes(lf, LoginScreen.Email) == Passes(f, Email);
    assert LoginScreen.Passes(lf, LoginScreen.Password) == Passes(f, Password);
    assert LoginScreen.ErrorOf(LoginScreen.Validate(lf).errors, LoginScreen.Email) == LoginScreen.Validate(lf).errors.email;
    assert LoginScreen.ErrorOf(LoginScreen.Validate(lf).errors, LoginScreen.Password) == LoginScreen.Validate(lf).errors.password;
  }

  /** A field's entry after submit depends on the values its check reads
      alone: the confirmation entry on the two passwords, every other entry on
      its own field. So no failure hides another field's error. */
  lemma ChecksIndependent(f: RegisterForm, g: RegisterForm, field: RegisterField)
    requires Value(f, field) == Value(g, field)
    requires field == ConfirmPassword ==> f.password == g.password
    ensures ErrorOf(Validate(f).errors, field) == ErrorOf(Validate(g).errors, field)
  {
    match field
    case UserName =>
    case Email =>
    case Password =>
    case ConfirmPassword =>
  }

  /** Submitting twice in a row changes nothing the second time. */
  lemma SubmitIdempotent(s: RegisterState)
    ensures Submit(Submit(s).state) == Submit(s)
  {
  }

  /** No error from an earlier submit survives a new one: the outcome depends
      on the fields only. */
  lemma SubmitForgetsOldErrors(s: RegisterState, t: RegisterState)
    requires s.form == t.form
    ensures Submit(s) == Submit(t)
  {
  }

  lemma StepKeepsInvariants(s: RegisterState, e: RegisterEvent)
    requires ErrorsWellFormed(s) && SingleFieldErrorsCurrent(s)
    ensures ErrorsWellFormed(Step(s, e)) && SingleFieldErrorsCurrent(Step(s, e))
  {
    match e
    case Type(field, text) =>
    case Press =>
  }

  /** Whatever the user does, each entry holds nothing or its own message, and
      the user-name, email and password entries are never stale. */
  lemma {:induction false} RunKeepsInvariants(s: RegisterState, events: seq<RegisterEvent>)
    requires ErrorsWellFormed(s) && SingleFieldErrorsCurrent(s)
    ensures ErrorsWellFormed(Run(s, events)) && SingleFieldErrorsCurrent(Run(s, events))
    decreases |events|
  {
    if events != [] {
      StepKeepsInvariants(s, events[0]);
      RunKeepsInvariants(Step(s, events[0]), events[1..]);
    }
  }

  lemma InitialInvariants()
    ensures ErrorsWellFormed(Initial) && SingleFieldErrorsCurrent(Initial)
    ensures forall events :: ErrorsWellFormed(Run(Initial, events)) && SingleFieldErrorsCurrent(Run(Initial, events))
  {
    forall events
      ensures ErrorsWellFormed(Run(Initial, events)) && SingleFieldErrorsCurrent(Run(Initial, events))
    {
      RunKeepsInvariants(Initial, events);
    }
  }

  /** The confirmation entry is the exception: editing the password clears the
      password's entry only. From any state, typing a password p, a different
      confirmation q, submitting, and then retyping the password as q leaves
      the two passwords equal while "Passwords do not match." stays on screen. */
  lemma MismatchErrorCanGoStale(s: RegisterState, p: JsString, q: JsString)
    requires p != q
    ensures var r := Run(s, [Type(Password, p), Type(ConfirmPassword, q), Press, Type(Password, q)]);
      && r.errors.confirmPassword == MismatchMessage
      && r.form.password == r.form.confirmPassword
  {
    var events := [Type(Password, p), Type(ConfirmPassword, q), Press, Type(Password, q)];
    var s1 := Edit(s, Password, p);
    var s2 := Edit(s1, ConfirmPassword, q);
    assert s2.form.password == p && s2.form.confirmPassword == q;
    var s3 := Submit(s2).state;
    assert ErrorOf(s3.errors, ConfirmPassword) == MismatchMessage;
    var s4 := Edit(s3, Password, q);
    assert ErrorOf(s4.errors, ConfirmPassword) == MismatchMessage;
    assert Value(s4.form, Password) == q && Value(s4.form, ConfirmPassword) == q;
    assert Run(s4, events[4..]) == s4;
    assert Run(s3, events[3..]) == s4;
    assert Run(s2, events[2..]) == s4;
    assert Run(s1, events[1..]) == s4;
  }

  /** The untouched screen flags the name, the email and the password but
      not the confirmation: two empty strings are equal. */
  lemma EmptyFormErrors(f: RegisterForm)
    requires f.userName == [] && f.email == [] && f.password == [] && f.confirmPassword == []
    ensures Validate(f).errors == RegisterErrors(UserNameMessage, EmailMessage, PasswordMessage, [])
    ensures !Validate(f).isValid
  {
    assert !Passes(f, UserName) by {
      TrimEmptyIff(f.userName);
    }
    assert !Passes(f, Email) by {
      EmailNeedsAtAfterStart(f.email);
    }
    assert !Passes(f, Password) && Passes(f, ConfirmPassword);
    var e := Validate(f).errors;
    assert ErrorOf(e, UserName) == UserNameMessage && ErrorOf(e, Email) == EmailMessage;
    assert ErrorOf(e, Password) == PasswordMessage && ErrorOf(e, ConfirmPassword) == [];
  }

  /** A form complete but for the name flags the name alone. */
  lemma MissingNameOnly(f: RegisterForm)
    requires f.userName == [] && ValidateEmail(f.email) && ValidatePassword(f.password)
    requires f.confirmPassword == f.password
    ensures Validate(f).errors == RegisterErrors(UserNameMessage, [], [], [])
  {
    TrimEmptyIff([]);
    var e := Validate(f).errors;
    assert !Passes(f, UserName) && Passes(f, Email) && Passes(f, Password) && Passes(f, ConfirmPassword);
    assert ErrorOf(e, UserName) == UserNameMessage && ErrorOf(e, Email) == [];
    assert ErrorOf(e, Password) == [] && ErrorOf(e, ConfirmPassword) == [];
  }

  /** A password too short that also differs from its confirmation draws the
      length error and the mismatch error at once. */
  lemma ShortAndMismatched(f: RegisterForm)
    requires !ValidatePassword(f.password) && f.password != f.confirmPassword
    ensures Validate(f).errors.password == PasswordMessage
    ensures Validate(f).errors.confirmPassword == MismatchMessage
  {
    assert ErrorOf(Validate(f).errors, Password) == PasswordMessage;
    assert ErrorOf(Validate(f).errors, ConfirmPassword) == MismatchMessage;
  }
}
