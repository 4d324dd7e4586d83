# Login and Register form validation, in Dafny

This project models the client-side form validation of a React Native (Expo) app's
Log in and Create Your Account screens (`app/login.tsx`, `app/register.tsx`).
Each screen keeps its field values and an error record that holds one message
string per field, where the empty string means no error. The model covers:

- the field checks. `validateEmail` is the unanchored regular-expression test
  `/\S+@\S+\.\S+/`. `validatePassword` is `length >= 6`. Register also has the
  `userName.trim() === ''` test and the `password !== confirmPassword` test.
- the submit handler `handleCreateAccount`. It runs every check without
  short-circuiting, builds a fresh error record, replaces the stored one with
  it, and raises either the success alert or the "Validation Error" alert.
- the `onChangeText` handlers. Each one overwrites one field and clears only
  that field's error entry.

Everything is immutable values and pure functions:

- one `Edit` and one `Submit` transition per screen;
- `Step`/`Run` over sequences of user events;
- lemmas for invariants and frame properties ("nothing else changes").

Modules:

- `JsText` (`js_text.dfy`) holds JavaScript strings and `Utf16Length`, the
  `.length` in UTF-16 code units. It also holds `IsWhiteSpace`, a single
  white-space class that `\s` and `trim()` share. The class is the WhiteSpace
  production (section 12.2 of ECMA-262; USP is general category Zs) plus the
  LineTerminator production (section 12.3). `Trim` is also here.
- `Validators` (`validators.dfy`) holds `ValidateEmail`, which gives the
  regular expression its matching semantics: some substring splits as `\S+`,
  `@`, `\S+`, `.`, `\S+`. It also holds a two-point characterisation of that
  test, a linear one-pass scanner proved equal to it, `ValidatePassword`, and
  the two messages both screens share.
- `Alerts` (`alerts.dfy`) holds the `Alert.alert(title, message?)` outcome as
  a value.
- `LoginScreen` (`login.dfy`) and `RegisterScreen` (`register.dfy`) each hold
  the form, error record, state and event datatypes, plus `Validate`,
  `Submit`, `Edit`, `Step` and `Run`.

Strings are Dafny `string`s, that is, sequences of code points. A well-formed
JavaScript string is the UTF-16 encoding of such a sequence, and that encoding
is injective, so `===` on code units is the same as equality here. `.length`
is `Utf16Length`, where a code point outside the Basic Multilingual Plane
counts 2. Every white-space code point, `@` and `.` is a single code unit, and
no surrogate is white space. So the regular expression, which has no `u` flag
and matches code units, finds a match over code units exactly when it finds
one over code points.

One behaviour of the source is stated rather than changed:
`RegisterScreen.MismatchErrorCanGoStale`. Editing the password clears only
the password's entry. A "Passwords do not match." message can therefore stay
on screen after the password has been retyped to equal the confirmation. The
user name, email and password entries never go stale
(`RegisterScreen.RunKeepsInvariants`), and neither do the Login screen's
entries (`LoginScreen.RunKeepsErrorsCurrent`).

## Model

| member | source | states |
|---|---|---|
| JsText.IsWhiteSpace | app/register.tsx:36 | the one white-space class of `\s` and `trim()`, the WhiteSpace and LineTerminator code points of ECMA-262 (sections 12.2 and 12.3); every member of it is a single UTF-16 code unit |
| JsText.Utf16Length | app/login.tsx:28 | `.length` counts UTF-16 code units: at least one and at most two per code point, exactly one per code point when all lie in the Basic Multilingual Plane |
| JsText.Utf16LengthAppend | app/login.tsx:28 | the code-unit length of a concatenation is the sum of the lengths |
| JsText.Trim | app/register.tsx:36 | `trim()` returns an infix of the name, everything outside it is white space, and the result neither starts nor ends with white space |
| JsText.SkipLeading | app/register.tsx:36 | the leading white space that `trim()` drops ends at the first non-white-space code point |
| JsText.SkipTrailing | app/register.tsx:36 | the trailing white space that `trim()` drops starts after the last non-white-space code point |
| JsText.TrimEmptyIff | app/register.tsx:36 | `userName.trim() === ''` holds exactly when the name is empty or consists only of white space |
| JsText.TrimKeepsNonWhiteSpace | app/register.tsx:36 | a name with any non-white-space character survives `trim()` non-empty |
| Validators.ValidateEmail | app/login.tsx:27 | `validateEmail` holds iff some substring, starting anywhere, splits as `\S+`, `@`, `\S+`, `.`, `\S+`; its contract states this is equivalent to a two-point witness: some `@` at index p >= 1 has a non-white-space code point before it, a non-empty white-space-free run after it, then a `.` at q followed by a non-white-space code point; `@` and `.` may occur inside the runs |
| Validators.ScanEmail | app/login.tsx:27 | a single left-to-right pass returns true exactly when `/\S+@\S+\.\S+/` matches somewhere in the string |
| Validators.WitnessClosingAtIsSeen | app/login.tsx:27 | every match whose `.` sits just before the current index lies in the current white-space-free run, so the scan's first eligible `@` sees it |
| Validators.EmailAcceptsExamples | app/login.tsx:27 | `a@b.c` passes; `x a@b.c y` passes because the test is unanchored; `a@..c` passes because `.` is itself `\S` |
| Validators.EmailRejectsExamples | app/login.tsx:27 | `@b.c`, `a@.c`, `bademail` and `a @b.c` fail |
| Validators.EmailNeedsAtAfterStart | app/login.tsx:27 | a string with no `@` after its first character never passes, so the empty string fails |
| Validators.ValidatePassword | app/login.tsx:28 | `validatePassword` holds iff the UTF-16 length is at least 6; six code points always suffice, and three code points are needed at least |
| Validators.ValidatePasswordMeaning | app/login.tsx:28 | for Basic Multilingual Plane text the rule is exactly "at least 6 characters"; 6 code points always suffice; appending never invalidates |
| Validators.PasswordBoundary | app/login.tsx:28 | length 5 fails, length 6 passes, and three emoji (6 code units) pass |
| LoginScreen.Passes | app/login.tsx:36-44 | the condition of each `if` of the submit handler: `validateEmail(email)` and `validatePassword(password)`; an empty field never passes |
| LoginScreen.SetError | app/login.tsx:37 | assigning one entry of the error record sets that entry and leaves the other |
| LoginScreen.CheckField | app/login.tsx:36-44 | one check block writes its field's message and clears `isValid` exactly when the check fails, touching no other entry |
| LoginScreen.Validate | app/login.tsx:31-44 | after both checks run, an entry is empty iff its check passes, otherwise it holds exactly its message; `isValid` is true iff every entry is empty |
| LoginScreen.Submit | app/login.tsx:30-55 | submit keeps the fields, replaces the error record with the fresh one, is valid iff both checks pass, and raises "Log in success!" when valid and the "Validation Error" alert otherwise |
| LoginScreen.Edit | app/login.tsx:68-84 | typing into a field sets that field to the text and clears its entry; the other field and its entry are unchanged |
| LoginScreen.ChecksIndependent | app/login.tsx:36-44 | a field's entry after submit depends only on that field's value, so a failing email does not hide the password error |
| LoginScreen.SubmitIdempotent | app/login.tsx:30-55 | submitting again straight after a submit yields the same state and outcome |
| LoginScreen.SubmitForgetsOldErrors | app/login.tsx:32-48 | the outcome of submit depends on the fields only, so no stale error from an earlier submit survives |
| LoginScreen.StepKeepsErrorsCurrent | app/login.tsx:30-84 | an edit or a submit keeps every shown error equal to its field's message with the field's current value still failing |
| LoginScreen.RunKeepsErrorsCurrent | app/login.tsx:30-84 | from any state whose errors are current, every sequence of edits and submits keeps them current |
| LoginScreen.InitialErrorsCurrent | app/login.tsx:16-24 | the initial empty screen has current errors, and so does every state reachable from it |
| LoginScreen.BadEmailFlagsEmailOnly | app/login.tsx:36-54 | `bademail` with `abcdef` flags only the email and raises the validation-error alert |
| LoginScreen.WellFormedPairLogsIn | app/login.tsx:36-54 | `a@b.com` with `abcdef` leaves both entries empty and raises "Log in success!" |
| LoginScreen.EmptyFormFlagsBoth | app/login.tsx:36-44 | submitting two empty fields flags both, since neither check short-circuits the other |
| RegisterScreen.Passes | app/register.tsx:36-54 | the conditions of the four `if`s of the submit handler: a name that is non-empty after `trim()`, `validateEmail`, `validatePassword`, and a confirmation equal to the password; an empty name, email or password never passes, and an empty confirmation passes iff the password is empty too |
| RegisterScreen.SetError | app/register.tsx:37 | assigning one entry of the error record sets that entry and leaves the other three |
| RegisterScreen.CheckField | app/register.tsx:36-54 | one check block writes its field's message and clears `isValid` exactly when the check fails, touching no other entry |
| RegisterScreen.EveryCheckApplied | app/register.tsx:33-54 | after the four blocks run from the empty record, each entry is its message iff its check failed, and `isValid` is the conjunction of the checks |
| RegisterScreen.MessagesNonEmpty | app/register.tsx:37-52 | every error message is non-empty, so a set entry is distinguishable from no error |
| RegisterScreen.Validate | app/register.tsx:33-54 | after all four checks run, an entry is empty iff its check passes, otherwise it holds exactly its message; `isValid` is true iff all four entries are empty |
| RegisterScreen.Welcome | app/register.tsx:59 | the success message is `Welcome, ` followed by the user name verbatim (untrimmed) and then `!` |
| RegisterScreen.Submit | app/register.tsx:32-63 | submit keeps the fields, replaces the error record with the fresh one, is valid iff all four checks pass, and raises "Account Created" with the welcome message when valid and the "Validation Error" alert otherwise |
| RegisterScreen.Edit | app/register.tsx:76-119 | typing into a field sets that field to the text and clears its entry; the other three fields and their entries are unchanged |
| RegisterScreen.UserNameRequired | app/register.tsx:36-39 | "User Name is required." is set exactly when the name is empty or all white space |
| RegisterScreen.SharedChecksAgreeWithLogin | app/register.tsx:29-49 | the email and password entries equal those the Login screen computes for the same values |
| RegisterScreen.ChecksIndependent | app/register.tsx:36-54 | each entry depends only on the values its check reads, so the length and mismatch checks do not depend on each other's result |
| RegisterScreen.SubmitIdempotent | app/register.tsx:32-63 | submitting again straight after a submit yields the same state and outcome |
| RegisterScreen.SubmitForgetsOldErrors | app/register.tsx:34-56 | the outcome of submit depends on the fields only, so the record is rebuilt from scratch |
| RegisterScreen.StepKeepsInvariants | app/register.tsx:32-119 | an edit or a submit keeps every entry either empty or its own message, and keeps the name, email and password entries current |
| RegisterScreen.RunKeepsInvariants | app/register.tsx:32-119 | every sequence of edits and submits keeps those two invariants |
| RegisterScreen.InitialInvariants | app/register.tsx:16-26 | the initial empty screen satisfies the invariants, and so does every state reachable from it |
| RegisterScreen.MismatchErrorCanGoStale | app/register.tsx:51-54 | after password p, confirmation q != p, submit, and retyping the password as q, the passwords are equal but the mismatch message is still shown |
| RegisterScreen.EmptyFormErrors | app/register.tsx:36-54 | submitting the empty screen flags name, email and password but not the confirmation, because two empty strings are equal |
| RegisterScreen.MissingNameOnly | app/register.tsx:36-54 | a missing name with a valid email and matching valid passwords flags the name alone |
| RegisterScreen.ShortAndMismatched | app/register.tsx:46-54 | a password that is too short and differs from its confirmation gets the length error and the mismatch error together |

## Left out

- Navigation is not modelled. This covers the `Link` to `/home` that wraps the Log in button (app/login.tsx:93-97), the sign-up and login links, and the welcome screen. On this screen the button navigates whatever the validation result, and no user name is passed on. The model follows app/login.tsx; the other login form, app/(tabs)/explore.tsx, does pass the email on (next line).
- app/(tabs)/explore.tsx is a second Log in form and is not part of this model. Its `validateEmail`, `validatePassword`, checks, error record and `onChangeText` handlers (app/(tabs)/explore.tsx:36-51, 74-91) are the ones `LoginScreen` models. Its success outcome differs: it navigates to Home with the email as `username` (app/(tabs)/explore.tsx:56) instead of raising an alert, and its Sign up link sets `window.location.href` (app/(tabs)/explore.tsx:111). Both are navigation, left out as above.
- `Alert.alert` is kept only as the returned `Alert` value. Showing it is a side effect of the UI runtime.
- Focus state (`isFocused`, `onFocus`, `onBlur`) is left out. It only selects a style.
- Styles and JSX layout are left out, and so is the conditional rendering of an error line when its entry is non-empty.
- app/home.tsx is not part of this model. It is a network fetch of a book list, list rendering and a cosmetic click counter. Nor are app/index.tsx, a static welcome screen with one link, and app/(tabs)/index.tsx, a static title and logo.
- The regular-expression engine's backtracking is not simulated. `validateEmail` is specified by what it matches, and a linear scan is proved to decide the same thing.
- Strings holding a lone surrogate code unit are not modelled. A text field does not produce them. Every well-formed string is covered, with `.length` counted in UTF-16 code units.
